# Calm Colors: a verified model of the theme menu and the page agent

Calm Colors is a browser extension that puts a right-click menu of colour themes
(Default, Light, Sepia, Dark, No Theme) on web pages. Choosing a theme makes the
background script send a command to the tab. The content script in that tab then
adds, updates or removes one reserved `<link>` stylesheet element in the document
head.

This project models three sources:

- the Firefox background script (`FirefoxBackground`): its registry of theme items,
  both lookups, the checkbox menu, and the reconciliation of the checked entry with
  what the tab reports;
- the Chrome background script (`ChromeBackground`): its own registry, its menu of
  plain entries, and its click handlers;
- the content script (`CalmColors`): the reserved stylesheet slot in the head and the
  command switch.

`extractHostname`, which both background scripts define identically, is modelled
once (`Hostname`). It builds on JavaScript's `split` and `indexOf`, which are
modelled on `seq<char>` (`Strings`). `Strings` also holds `toLowerCase`, which the
content script applies to tag names. `Browser` holds what the scripts see of the
browser:

- the messages they send;
- how a `tabs.sendMessage` promise settles, which is an input to the model;
- the record of calls they make into the browser.

The background scripts are classes. Each keeps its registry as a constant field. A
`calls` log records its `contextMenus.create`, `contextMenus.update` and
`tabs.sendMessage` calls, in order. Listener registrations (`addListener`) and the
`setTimeout` in `checkActiveMenuItem` are not logged. The Firefox
controller also holds the menu's checked flags as a map from menu item id to flag.
Every method is specified by a function of the old state. The properties are proved
about those functions:

- registry contents;
- lookup round trips in both directions;
- exactly one checked entry after every reconciliation;
- the menu layout.

The content script is a `Page` class. The head is a sequence of element values. Each
change the script makes to the head is also recorded, in order, as an append, a
removal or an attribute update. An element the script creates enters the log already
carrying its attributes, so the `setAttribute` calls made on it before it is attached
are not recorded separately. The lemmas cover four properties of the reserved element:

- it is unique;
- it is a `<link>` that points at the requested stylesheet;
- a later apply replaces an earlier one;
- the page is never left without the reserved element in the middle of an apply.

They also show that the other elements keep their relative order. An update in
place moves nothing. Replacing a reserved element of another kind puts the new link
last and moves every element after the old one back by one place.

The two Firefox files do not agree on commands:

- The Firefox background script sends `apply-file`, `no-theme` and `query-theme`.
- The content script only acts on `apply` and `remove`.
- The content script never answers a query.

The model keeps the two sides as written. `Protocol.FirefoxCommandsIgnored` proves
that the content script modelled here leaves the page unchanged for every message
the Firefox background script sends. Because no reply ever comes, a Firefox
reconciliation after a query always takes the failure branch, and afterwards only
"No Theme" is checked (`FirefoxBackground.QueryOutcomes`, case `Failed`).

Chrome's commands are the ones this content script understands. The Chrome lemmas
in `Protocol` therefore connect the Chrome background script to this content
script.

## Model

| member | source | states |
|---|---|---|
| Strings.Split | webext-firefox/background.js:182-190 | `s.split(sep)` has one more part than `s` has separators, no part contains the separator, and joining the parts with it gives `s` back |
| Strings.IndexOf | webext-firefox/background.js:181 | `s.indexOf(pat)` is -1 exactly when `pat` occurs nowhere, otherwise the first index where it occurs |
| Strings.ToLower | webext-firefox/calmcolors.js:25 | `toLowerCase` keeps the length and lower-cases every ASCII letter, leaving other characters alone |
| Hostname.HostnameOf | webext-firefox/background.js:178-192 | the hostname is a prefix of the host segment and contains no '/', ':' or '?' |
| Hostname.HostSegment | webext-firefox/background.js:181-186 | with "://" in the URL the host is taken from the third '/'-segment (which exists), otherwise from the first; it never contains '/' |
| Hostname.ExtractHostname | webext-firefox/background.js:178-192 | the step-by-step reassignment computes `HostnameOf(url)` and the result contains no '/', ':' or '?' |
| Hostname.HostnameCharacterised | webext-chrome/background.js:137-152 | the hostname is the longest prefix of the host segment without ':' or '?': a prefix free of '/', ':' and '?', followed in the segment by ':' or '?' unless it is the whole segment |
| Hostname.PlainHostIsFixed | webext-chrome/background.js:138-152 | a string without '/', ':' and '?' is its own hostname |
| Hostname.HostnameIdempotent | webext-chrome/background.js:138-152 | extracting a hostname twice equals extracting it once |
| FirefoxBackground.BrowserDefaultTheme | webext-firefox/background.js:6 | the default theme is `chrome-default` in Chrome and `moz-default` otherwise, and never collides with another registry item id |
| FirefoxBackground.MakeThemeItems | webext-firefox/background.js:166-174 | five items, the first being the browser's default theme; the first four apply a css file, and only the last drops the theme and has a separator |
| FirefoxBackground.MakeThemeItem | webext-firefox/background.js:156-164 | the menu item id is `tonedown-<action>-<itemId>`; label, item id, action and separator flag are the arguments |
| FirefoxBackground.RegistryContents | webext-firefox/background.js:166-174 | the registry is the browser's default theme, light, sepia, dark (all `apply-file`, no separator) and then "No Theme"; that last item alone has action `no-theme` and a separator |
| FirefoxBackground.RegistryWellFormed | webext-firefox/background.js:156-174 | item ids and menu item ids are non-empty and pairwise distinct, in Firefox and in Chrome |
| Lists.FindIndex | webext-firefox/background.js:133-135 | `find` with a key test: the index of the first element whose key matches, and none exactly when no element matches (used for every registry lookup in both background scripts) |
| FirefoxBackground.FindMenuItemFromActionId | webext-firefox/background.js:131-141 | the menu item id of the first item with that item id, or '' when there is none |
| FirefoxBackground.FindActionFromMenuItem | webext-firefox/background.js:143-152 | the first item with that menu item id, or no action when there is none |
| FirefoxBackground.LookupRoundTrip | webext-firefox/background.js:131-152 | with unique ids, item id to menu item id to item gives the item back, and menu item id to item to menu item id gives the id back |
| FirefoxBackground.UnknownIds | webext-firefox/background.js:131-152 | on the registry, no action comes back exactly for ids that are not menu item ids, and '' exactly for item ids that are not in it |
| FirefoxBackground.InitialMenuCalls | webext-firefox/background.js:60-78 | the menu is built as four unchecked checkbox entries in registry order, then a separator, then "No Theme" checked |
| FirefoxBackground.InitialMenuChecks | webext-firefox/background.js:60-78 | after building, the menu has an entry for every registry item and "No Theme" is the only checked one |
| FirefoxBackground.BatchUpdateFlags | webext-firefox/background.js:119-128 | the deferred batch sets every registry entry's flag to whether it is the resolved id and leaves other entries alone |
| FirefoxBackground.ReconcileResolves | webext-firefox/background.js:116-129 | a name that resolves to a menu item id leaves exactly that entry checked and keeps all entries; a name that does not resolve changes nothing and makes no call |
| FirefoxBackground.RegistryReconcile | webext-firefox/background.js:116-141 | on the registry, a known item id leaves exactly its entry checked; an unknown one changes nothing |
| FirefoxBackground.ReplyTheme | webext-firefox/background.js:109-112 | a delivered non-empty theme is used as is; an empty theme or a failed send gives `no-theme`; the result is never empty |
| FirefoxBackground.QueryOutcomes | webext-firefox/background.js:103-114 | a failed query or an empty theme leaves only "No Theme" checked; a theme naming a registry item leaves only that item checked; an unknown non-empty theme changes nothing |
| FirefoxBackground.ChromeNeverUpdates | webext-firefox/background.js:103-117 | with `browserIsChrome`, reconciliation and the query change no flag and make no call |
| FirefoxBackground.Controller.constructor | webext-firefox/background.js:20-21 | start-up builds the registry and the menu: its calls are the menu calls, "No Theme" is the only checked entry, and the menu invariant holds |
| FirefoxBackground.Controller.BuildContextMenuItems | webext-firefox/background.js:60-78 | the loop appends the registry's menu calls in order and sets the initial flags |
| FirefoxBackground.Controller.CheckActiveMenuItem | webext-firefox/background.js:116-129 | the new menu and the new call log are the reconciliation of the old ones (unchanged in Chrome); exactly one entry stays checked |
| FirefoxBackground.Controller.UpdateAll | webext-firefox/background.js:121-127 | the deferred batch updates every registry entry in order, checking exactly the resolved id, and logs one update per entry |
| FirefoxBackground.Controller.UpdateMenuItemStates | webext-firefox/background.js:103-114 | sends the query and then reconciles with the reply's theme, or with "No Theme" on an empty theme or a failure; nothing in Chrome |
| FirefoxBackground.Controller.SendThemeRequest | webext-firefox/background.js:87-101 | with a truthy tab id and action, send the request; on delivery re-run the query, on failure check "No Theme"; otherwise nothing |
| FirefoxBackground.Controller.HandleTabUpdated | webext-firefox/background.js:27-35 | only a tab that completed loading and is active triggers the query; any other update changes nothing |
| FirefoxBackground.Controller.HandleTabActivated | webext-firefox/background.js:37-43 | every activation runs the query for the activated tab |
| FirefoxBackground.Controller.HandleThemeClick | webext-firefox/background.js:80-85 | a click on an unknown entry changes nothing; otherwise the entry's action and item id are requested for the tab |
| ChromeBackground.MakeThemeItem | webext-chrome/background.js:126-134 | the menu item id is `tonedown-` followed by the theme name, and the theme name can be read back from it; the other fields are the arguments |
| ChromeBackground.MakeStandardThemeItems | webext-chrome/background.js:114-120 | three `file` entries applied by `apply`, each with the prefix plus its theme name as menu item id |
| ChromeBackground.MakeRemoveThemeItem | webext-chrome/background.js:122-124 | the entry `remove` labelled "No Theme", with command `remove`, no type and menu item id `tonedown-remove` |
| ChromeBackground.MenuThemes | webext-chrome/background.js:14-18 | five entries: the default entry, the three standard entries in order, then the remove entry |
| ChromeBackground.MakeDefaultThemeItem | webext-chrome/background.js:107-112 | the default entry is `chrome-default` in Chrome and `moz-default` otherwise, a 'file' theme applied by the `apply` command |
| ChromeBackground.RegistryContents | webext-chrome/background.js:10-18 | the registry is default, light, sepia, dark and remove in this order; each id is the prefix plus the theme name; only the last entry has command `remove` |
| ChromeBackground.RegistryWellFormed | webext-chrome/background.js:107-134 | theme names and menu item ids are non-empty and pairwise distinct |
| ChromeBackground.IdsFollowNames | webext-chrome/background.js:126-128 | menu item ids built as the prefix followed by the theme name are distinct whenever the theme names are |
| ChromeBackground.FindMenuItemFromThemeName | webext-chrome/background.js:68-79 | the menu item id of the first entry with that theme name, or '' when there is none |
| ChromeBackground.FindThemeNameFromMenuItem | webext-chrome/background.js:81-92 | the theme name of the first entry with that menu item id, or '' when there is none |
| ChromeBackground.LookupRoundTrip | webext-chrome/background.js:68-92 | with unique names and ids, theme name to menu item id to theme name, and menu item id to theme name to menu item id, are identities |
| ChromeBackground.UnknownIds | webext-chrome/background.js:68-92 | on the registry, '' comes back exactly for menu item ids and theme names it does not have |
| ChromeBackground.MenuLayout | webext-chrome/background.js:22-56 | the menu is the four apply entries in registry order, plain and unchecked, then the only separator, then the remove entry checked |
| ChromeBackground.ApplyClickOutcomes | webext-chrome/background.js:58-66 | an apply click on an unknown id sends nothing; one on a registry entry in a tab with a truthy id sends `apply` with that entry's theme name |
| ChromeBackground.Controller.constructor | webext-chrome/background.js:14-19 | start-up builds the registry for the browser and makes exactly the menu calls |
| ChromeBackground.Controller.BuildContextMenuItems | webext-chrome/background.js:22-56 | the loop appends the registry's menu calls in order |
| ChromeBackground.Controller.SendLoadThemeRequest | webext-chrome/background.js:58-66 | an `apply` message is sent exactly when the tab id and the theme name are truthy |
| ChromeBackground.Controller.HandleThemeApplyClick | webext-chrome/background.js:94-96 | requests the theme name looked up from the clicked entry |
| ChromeBackground.Controller.HandleThemeRemoveClick | webext-chrome/background.js:98-104 | always sends `remove`, without a scheme, to the clicked tab |
| CalmColors.SchemePath | webext-firefox/calmcolors.js:86-88 | the path is `css/`, the scheme's text (`undefined` for a missing scheme) and `.css`, so the scheme's text can be read back from it |
| CalmColors.CssSchemeUrl | webext-firefox/calmcolors.js:86-88 | the URL is the resolved stylesheet path of the scheme |
| CalmColors.Applied | webext-firefox/calmcolors.js:22-39 | the head grows by one element exactly when it had no reserved element, and unless a reserved `<link>` was updated in place its last element is the new link |
| CalmColors.ApplyMutations | webext-firefox/calmcolors.js:22-39 | one or two mutations; the first is an append exactly when the first reserved element is missing or not a `<link>`; a removal only ever directly follows the append |
| CalmColors.Removed | webext-firefox/calmcolors.js:64-75 | the head shrinks by one element exactly when it had a reserved element, and a head without one comes back unchanged |
| CalmColors.RemoveMutations | webext-firefox/calmcolors.js:64-75 | at most one removal, present exactly when the head has a reserved element, and naming a reserved element |
| CalmColors.Handled | webext-firefox/calmcolors.js:6-20 | the new head is what replaying the listener's mutations on the old head gives; commands other than `apply` and `remove` leave it unchanged |
| CalmColors.HandledMutations | webext-firefox/calmcolors.js:6-20 | at most two mutations per message, and none for commands other than `apply` and `remove` |
| CalmColors.UpdateCssNode | webext-firefox/calmcolors.js:41-46 | `href` becomes the URL of `css/<scheme>.css` and `data-theme` the scheme's text; tag, id and every other attribute are kept |
| CalmColors.CreateLinkNode | webext-firefox/calmcolors.js:53-62 | a reserved `<link>` with `type` text/css and `rel` stylesheet, which has `href` and `data-theme` exactly when the scheme is truthy |
| CalmColors.FindCssNode | webext-firefox/calmcolors.js:48-51 | the index of the first element with the reserved id, or none when no element has it |
| CalmColors.AppliedInPlace | webext-firefox/calmcolors.js:25-28 | a reserved `<link>` is updated where it stands: same position, no element added or removed |
| CalmColors.AppliedReplace | webext-firefox/calmcolors.js:29-38 | a reserved element of another kind is replaced: the other elements, then the new link at the end |
| CalmColors.AppliedFresh | webext-firefox/calmcolors.js:29-33 | without a reserved element the new link is appended at the end |
| CalmColors.ApplyReservedCount | webext-firefox/calmcolors.js:22-39 | an apply leaves exactly one reserved element when there were none or one, and never changes a larger count |
| CalmColors.ApplyInstallsLink | webext-firefox/calmcolors.js:22-62 | from at most one reserved element, the first one afterwards is a `<link>`; with a truthy scheme or an updated old link it carries the scheme's URL and text, otherwise neither attribute |
| CalmColors.ThemesKeepOthers | webext-firefox/calmcolors.js:22-39 | apply and remove keep every non-reserved element, in order |
| CalmColors.ApplyOverrides | webext-firefox/calmcolors.js:22-46 | applying one scheme and then a truthy second gives the same head as applying the second alone |
| CalmColors.ApplyEmptyDoesNotOverride | webext-firefox/calmcolors.js:22-62 | re-applying the empty scheme over "dark" gives a different head from applying it alone |
| CalmColors.RemoveReservedCount | webext-firefox/calmcolors.js:64-75 | a remove takes away one reserved element when there is one, and otherwise changes nothing |
| CalmColors.RemoveClears | webext-firefox/calmcolors.js:64-75 | from at most one reserved element, removing leaves exactly the other elements; a second remove changes nothing; remove after apply equals remove alone |
| CalmColors.ApplyReplays | webext-firefox/calmcolors.js:22-46 | the mutations an apply records, replayed in order on the old head, produce the new head |
| CalmColors.RemoveReplays | webext-firefox/calmcolors.js:68-75 | the mutation a remove records, replayed on the old head, produces the new head |
| CalmColors.ApplyLeavesNoGap | webext-firefox/calmcolors.js:29-38 | on a page with a reserved element, each mutation of an apply leaves one: the new link is appended before the old element is removed |
| CalmColors.Page.constructor | webext-firefox/calmcolors.js:78-88 | a page with the given head, the given URL resolver and no mutations yet |
| CalmColors.Page.UpdateCssNodeAt | webext-firefox/calmcolors.js:41-46 | the element at the index is updated by exactly two `setAttribute` calls, `href` first |
| CalmColors.Page.RemoveCssNode | webext-firefox/calmcolors.js:68-75 | the given element, or else the first reserved one, is removed; with neither, nothing changes |
| CalmColors.Page.ApplyCssScheme | webext-firefox/calmcolors.js:22-39 | the new head is the apply of the old one, and its mutations are appended to the log in order |
| CalmColors.Page.RemoveCssScheme | webext-firefox/calmcolors.js:64-66 | the new head is the remove of the old one, and its mutation is logged |
| CalmColors.Page.OnMessage | webext-firefox/calmcolors.js:6-20 | `apply` applies the request's scheme and `remove` removes; any other command changes nothing and records nothing |
| Protocol.FirefoxCommandsIgnored | webext-firefox/background.js:14-16 | no message the Firefox background script sends (either registry action, or the query) changes the page or records a mutation |
| Protocol.ChromeApplyReachesPage | webext-chrome/background.js:58-66 | for an apply entry (`k < 4`) of a well-formed registry, clicked in a tab with a truthy id: one `apply` message is sent. On a page with at most one reserved element, it leaves a reserved `<link>` to that theme's stylesheet, tagged with its name |
| Protocol.ChromeRemoveReachesPage | webext-chrome/background.js:98-104 | the `remove` message takes the reserved element away and keeps every other element |

## Left out

- Promises and callbacks of `tabs.sendMessage` and `contextMenus.update` are not modelled as asynchronous. How a send settles (`Delivered(theme)` or `Failed`) is a parameter of the handler. The settled branch runs straight away, so handlers for two events never interleave.
- The 100 ms `setTimeout` in `checkActiveMenuItem` is not modelled. The deferred batch of updates is applied as if it fired at once, with the menu item id resolved before the deferral as in the source.
- Browser detection (`!browser` and the hoisted `var browser`) is not modelled. `browserIsChrome` is a constructor parameter.
- A missing reply (`undefined`) is modelled as `Failed`. This is what happens to the `query-theme` message, because the content script never answers it: reading `.theme` of `undefined` throws inside `then`, and the `catch` branch runs. A reply object without a `theme` field does not throw. `response.theme || actionDropTheme` gives `no-theme` for it, so it behaves as `Delivered("")`. Both paths end in `checkActiveMenuItem('no-theme')`. Non-string themes are not modelled.
- `runtime.getURL` stays opaque. It is the function parameter `resolve` (the field `resolveUrl`), applied to `css/<scheme>.css`.
- `getDocumentHead` is not modelled. The model assumes that a head exists, or has been synthesised, and takes it as the constructor argument. It does not model how a missing head is created.
- `querySelector` is modelled only as "the first child of the head with the reserved id". Elements nested deeper in the head, and CSS selector semantics, are left out.
- Element identity is not modelled. An element is a value in the head sequence, and `removeCssNode(oldNode)` takes the old element's index. This index is still valid after the append, because appending adds at the end.
- `Strings.ToLower`: lower-cases ASCII letters only, not full Unicode case mapping.
- The browser's own toggle of a checkbox entry on click is not modelled. In Firefox the menu entries are checkboxes (webext-firefox/background.js:74), and the browser flips the clicked entry's flag itself. `FirefoxBackground.Controller.menu` holds only the flags the script sets through `create` and `update`, so `Valid()` (exactly one checked entry) describes those flags. The real menu has the clicked entry flipped until a reconciliation runs. It stays flipped when none follows: with a falsy tab id (line 88), or with a reply naming a theme the registry lacks (lines 109 and 120).
- Logging (`console.log`, `console.warn`, `console.error`) is not modelled.
- The commented-out activation branch at webext-firefox/background.js:44-56 is not modelled.
- The `type` field of the Chrome registry entries is kept but not used. The source does not use it either.
- The content script of webext-chrome is not part of this model. The `Protocol` lemmas about Chrome connect Chrome's messages to the content script of webext-firefox, which recognises Chrome's commands.
- The query operation: the content script contains no query handler, so none is modelled. The model follows the code, not a design in which the page answers queries and reports an error status for unknown commands.
- CalmColors.ApplyOverrides: the second scheme must be truthy, and the head must hold at most one reserved element. With an empty second scheme, an old link is updated to `data-theme=""`, while a fresh link gets no attributes (`CalmColors.ApplyEmptyDoesNotOverride`). With two reserved elements, the second apply updates a different element.
- CalmColors.ApplyInstallsLink: the head must hold at most one reserved element. With more, an apply that replaces the first one makes a later, untouched duplicate the first reserved element.
- CalmColors.RemoveClears: the head must hold at most one reserved element. A remove takes away only the first reserved element (`CalmColors.RemoveReservedCount` covers every count).
