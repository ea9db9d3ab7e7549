/** The browser extension API as the background scripts see it: the calls they
    make are recorded as values, and what `tabs.sendMessage` resolves to is an
    input to the model. */
module Browser {

  datatype Option<T> = None | Some(value: T)

  /** A message sent to a tab's content script: `{command, scheme}`, where a
      missing `scheme` field is `None` (JavaScript's `undefined`). */
  datatype Message = Message(command: string, scheme: Option<string>)

  /** How a `tabs.sendMessage` promise settles: it resolves with a response whose
      `theme` is read (a response without one behaves as an empty theme), or it fails
      (the send rejects, or no response comes, so reading `.theme` throws). */
  datatype Outcome = Delivered(theme: string) | Failed

  /** The `type` of a context-menu entry that carries an id. */
  datatype ItemKind = Normal | Checkbox

  /** Which listener a context-menu entry's `onclick` names. */
  datatype Handler = ThemeClick | ThemeApplyClick | ThemeRemoveClick

  /** One call into the browser, in the order the script makes them. */
  datatype Call =
    | CreateSeparator(contexts: seq<string>)
    | CreateItem(id: string, title: string, contexts: seq<string>, kind: ItemKind, checked: bool, onclick: Handler)
    | UpdateChecked(id: string, checked: bool)
    | SendMessage(tabId: int, message: Message)

  /** The contexts every menu entry is shown in. */
  const ItemContexts: seq<string> := ["page", "frame", "selection", "link", "image"]

  /** JavaScript truthiness of a tab id (a number). */
  predicate TabIdTruthy(tabId: int)
  {
    tabId != 0
  }
}
