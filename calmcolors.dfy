/** The content script: it keeps at most one reserved stylesheet element in the
    document head, identified by its `id` attribute, and applies or removes the
    theme on a background script's command. The head is a sequence of element
    values; every change the script makes to it is also recorded, in order, as a
    DOM mutation. */
module CalmColors {
  import opened Strings
  import opened Browser

  const CssNodeId := "tonedown-css-theme-override"
  const CssThemeId := "data-theme"
  const CommandApply := "apply"
  const CommandRemove := "remove"

  /** An element: its `tagName` and its attributes (the `id` is one of them). */
  datatype Node = Node(tag: string, attrs: map<string, string>)

  /** One change to the document head: appending an element, removing the element at an
      index, or setting an attribute of the element at an index. */
  datatype Mutation =
    | AppendChild(node: Node)
    | RemoveChild(index: nat)
    | SetAttribute(index: nat, name: string, value: string)

  /** The element carries the reserved id. */
  predicate IsCssNode(n: Node)
  {
    "id" in n.attrs && n.attrs["id"] == CssNodeId
  }

  /** `tagName.toLowerCase() === 'link'`. */
  predicate IsLink(n: Node)
  {
    ToLower(n.tag) == "link"
  }

  /** JavaScript truthiness of `request.scheme`: present and non-empty. */
  predicate Truthy(scheme: Option<string>)
  {
    scheme.Some? && scheme.value != ""
  }

  /** The scheme as `setAttribute` and a template literal turn it into text. */
  function SchemeText(scheme: Option<string>): string
  {
    if scheme.Some? then scheme.value else "undefined"
  }

  /** The extension-relative path of a scheme's stylesheet: the scheme's text between
      the directory `css/` and the extension `.css`, so it can be read back from the path. */
  function SchemePath(scheme: Option<string>): (path: string)
    ensures |path| == |SchemeText(scheme)| + 8
    ensures path[..4] == "css/" && path[|path| - 4..] == ".css"
    ensures path[4..|path| - 4] == SchemeText(scheme)
  {
    "css/" + SchemeText(scheme) + ".css"
  }

  /** `getCssSchemeUrl`: the extension's URL for the scheme's stylesheet path; `resolve`
      stands for `runtime.getURL`. */
  function CssSchemeUrl(resolve: string -> string, scheme: Option<string>): (url: string)
    ensures url == resolve(SchemePath(scheme))
  {
    resolve(SchemePath(scheme))
  }

  /** `updateCssNode` on an element value: `href` becomes the scheme's stylesheet URL and
      `data-theme` the scheme's text; the tag and every other attribute are kept. */
  function UpdateCssNode(resolve: string -> string, n: Node, scheme: Option<string>): (r: Node)
    ensures r.tag == n.tag
    ensures r.attrs.Keys == n.attrs.Keys + {"href", CssThemeId}
    ensures r.attrs["href"] == CssSchemeUrl(resolve, scheme) && r.attrs[CssThemeId] == SchemeText(scheme)
    ensures forall k :: k in n.attrs && k != "href" && k != CssThemeId ==> r.attrs[k] == n.attrs[k]
    ensures IsCssNode(r) == IsCssNode(n) && IsLink(r) == IsLink(n)
  {
    Node(n.tag, n.attrs["href" := CssSchemeUrl(resolve, scheme)][CssThemeId := SchemeText(scheme)])
  }

  /** The attributes `createLinkNode` always sets. */
  function BaseLinkAttrs(): map<string, string>
  {
    map["type" := "text/css", "rel" := "stylesheet", "id" := CssNodeId]
  }

  /** `createLinkNode`: a reserved `<link>` stylesheet element; it points at the scheme's
      stylesheet exactly when the scheme is truthy. */
  function CreateLinkNode(resolve: string -> string, scheme: Option<string>): (n: Node)
    ensures IsCssNode(n) && IsLink(n)
    ensures "type" in n.attrs && "rel" in n.attrs && n.attrs["type"] == "text/css" && n.attrs["rel"] == "stylesheet"
    ensures "href" in n.attrs <==> Truthy(scheme)
    ensures CssThemeId in n.attrs <==> Truthy(scheme)
    ensures Truthy(scheme) ==> "href" in n.attrs && CssThemeId in n.attrs && n.attrs["href"] == CssSchemeUrl(resolve, scheme) && n.attrs[CssThemeId] == scheme.value
  {
    var link := Node("LINK", BaseLinkAttrs());
    assert ToLower(link.tag) == "link";
    if Truthy(scheme) then UpdateCssNode(resolve, link, scheme) else link
  }

  /** `head.querySelector('#tonedown-css-theme-override')`: the index of the first reserved
      element, or `None` when there is none. */
  function FindCssNode(head: seq<Node>): (r: Option<nat>)
    ensures r.Some? ==> r.value < |head| && IsCssNode(head[r.value])
                        && forall j :: 0 <= j < r.value ==> !IsCssNode(head[j])
    ensures r.None? ==> forall j :: 0 <= j < |head| ==> !IsCssNode(head[j])
  {
    if head == [] then None
    else if IsCssNode(head[0]) then Some(0)
    else match FindCssNode(head[1..])
      case None => None
      case Some(k) => Some(k + 1)
  }

  /** `parentElement.removeChild` of the element at index `i`. */
  function RemoveAt(head: seq<Node>, i: nat): seq<Node>
    requires i < |head|
  {
    head[..i] + head[i + 1..]
  }

  /** The head after `applyCssScheme(scheme)`: a reserved `<link>` is updated in place;
      otherwise a new reserved link is appended and a reserved element of another kind,
      if there was one, is removed. */
  function Applied(resolve: string -> string, head: seq<Node>, scheme: Option<string>): (r: seq<Node>)
    ensures |r| == (if FindCssNode(head).None? then |head| + 1 else |head|)
    ensures !HasCssLink(head) ==> r[|r| - 1] == CreateLinkNode(resolve, scheme)
  {
    match FindCssNode(head)
    case Some(i) =>
      if IsLink(head[i]) then head[i := UpdateCssNode(resolve, head[i], scheme)]
      else RemoveAt(head + [CreateLinkNode(resolve, scheme)], i)
    case None => head + [CreateLinkNode(resolve, scheme)]
  }

  /** The head after `removeCssScheme()`: the first reserved element, if any, is removed. */
  function Removed(head: seq<Node>): (r: seq<Node>)
    ensures |r| == (if FindCssNode(head).None? then |head| else |head| - 1)
    ensures (forall j :: 0 <= j < |head| ==> !IsCssNode(head[j])) ==> r == head
  {
    match FindCssNode(head)
    case Some(i) => RemoveAt(head, i)
    case None => head
  }

  /** The head after the message listener handles `request`: 'apply' and 'remove' are
      acted on, every other command is only logged. */
  function Handled(resolve: string -> string, head: seq<Node>, request: Message): (r: seq<Node>)
    ensures r == Replay(head, HandledMutations(resolve, head, request))
    ensures request.command != CommandApply && request.command != CommandRemove ==> r == head
  {
    if request.command == CommandApply then
      ApplyReplays(resolve, head, request.scheme);
      Applied(resolve, head, request.scheme)
    else if request.command == CommandRemove then
      RemoveReplays(head);
      Removed(head)
    else head
  }

  /** The mutations `applyCssScheme(scheme)` makes, in order. */
  function ApplyMutations(resolve: string -> string, head: seq<Node>, scheme: Option<string>): (ms: seq<Mutation>)
    ensures 1 <= |ms| <= 2
    ensures ms[0].AppendChild? <==> !HasCssLink(head)
    ensures forall k :: 0 <= k < |ms| && ms[k].RemoveChild? ==> 0 < k && ms[k - 1].AppendChild?
  {
    match FindCssNode(head)
    case Some(i) =>
      if IsLink(head[i]) then
        [SetAttribute(i, "href", CssSchemeUrl(resolve, scheme)), SetAttribute(i, CssThemeId, SchemeText(scheme))]
      else [AppendChild(CreateLinkNode(resolve, scheme)), RemoveChild(i)]
    case None => [AppendChild(CreateLinkNode(resolve, scheme))]
  }

  /** The mutations `removeCssScheme()` makes. */
  function RemoveMutations(head: seq<Node>): (ms: seq<Mutation>)
    ensures |ms| <= 1 && forall k :: 0 <= k < |ms| ==> ms[k].RemoveChild?
    ensures ms == [] <==> forall j :: 0 <= j < |head| ==> !IsCssNode(head[j])
    ensures ms != [] ==> ms[0].index < |head| && IsCssNode(head[ms[0].index])
  {
    match FindCssNode(head)
    case Some(i) => [RemoveChild(i)]
    case None => []
  }

  /** The mutations the message listener makes for `request`. */
  function HandledMutations(resolve: string -> string, head: seq<Node>, request: Message): (ms: seq<Mutation>)
    ensures |ms| <= 2
    ensures request.command != CommandApply && request.command != CommandRemove ==> ms == []
  {
    if request.command == CommandApply then ApplyMutations(resolve, head, request.scheme)
    else if request.command == CommandRemove then RemoveMutations(head)
    else []
  }

  /** The head after one mutation (one that names a missing index changes nothing). */
  function Step(head: seq<Node>, m: Mutation): seq<Node>
  {
    match m
    case AppendChild(n) => head + [n]
    case RemoveChild(i) => if i < |head| then RemoveAt(head, i) else head
    case SetAttribute(i, name, value) =>
      if i < |head| then head[i := Node(head[i].tag, head[i].attrs[name := value])] else head
  }

  /** The head after a sequence of mutations, the last one applied last. */
  function Replay(head: seq<Node>, ms: seq<Mutation>): seq<Node>
  {
    if ms == [] then head else Step(Replay(head, ms[..|ms| - 1]), ms[|ms| - 1])
  }

  /** The number of reserved elements. */
  function ReservedCount(head: seq<Node>): nat
  {
    if head == [] then 0 else (if IsCssNode(head[0]) then 1 else 0) + ReservedCount(head[1..])
  }

  /** The elements that do not carry the reserved id, in document order. */
  function Others(head: seq<Node>): seq<Node>
  {
    if head == [] then [] else (if IsCssNode(head[0]) then [] else [head[0]]) + Others(head[1..])
  }

  /** The first reserved element is a `<link>`. */
  predicate HasCssLink(head: seq<Node>)
  {
    FindCssNode(head).Some? && IsLink(head[FindCssNode(head).value])
  }

  /** Counting distributes over concatenation. */
  lemma {:induction false} ReservedCountConcat(a: seq<Node>, b: seq<Node>)
    ensures ReservedCount(a + b) == ReservedCount(a) + ReservedCount(b)
    decreases |a|
  {
    if a == [] {
      assert a + b == b;
    } else {
      assert (a + b)[1..] == a[1..] + b;
      ReservedCountConcat(a[1..], b);
    }
  }

  /** Filtering distributes over concatenation. */
  lemma {:induction false} OthersConcat(a: seq<Node>, b: seq<Node>)
    ensures Others(a + b) == Others(a) + Others(b)
    decreases |a|
  {
    if a == [] {
      assert a + b == b;
    } else {
      assert (a + b)[1..] == a[1..] + b;
      OthersConcat(a[1..], b);
    }
  }

  /** A head without reserved elements counts zero of them and is its own filtering. */
  lemma {:induction false} NoReserved(head: seq<Node>)
    requires forall j :: 0 <= j < |head| ==> !IsCssNode(head[j])
    ensures ReservedCount(head) == 0 && Others(head) == head
    decreases |head|
  {
    if head != [] {
      NoReserved(head[1..]);
    }
  }

  /** A head that counts zero reserved elements has none. */
  lemma {:induction false} CountZero(head: seq<Node>)
    requires ReservedCount(head) == 0
    ensures forall j :: 0 <= j < |head| ==> !IsCssNode(head[j])
    decreases |head|
  {
    if head != [] {
      CountZero(head[1..]);
    }
  }

  /** Counting and filtering distribute over a concatenation of three parts. */
  lemma {:induction false} ConcatThree(a: seq<Node>, b: seq<Node>, c: seq<Node>)
    ensures ReservedCount(a + b + c) == ReservedCount(a) + ReservedCount(b) + ReservedCount(c)
    ensures Others(a + b + c) == Others(a) + Others(b) + Others(c)
  {
    ReservedCountConcat(a + b, c);
    OthersConcat(a + b, c);
    ReservedCountConcat(a, b);
    OthersConcat(a, b);
  }

  /** Splitting the head around index `i`. */
  lemma {:induction false} SplitAround(head: seq<Node>, i: nat)
    requires i < |head|
    ensures ReservedCount(head) == ReservedCount(head[..i]) + ReservedCount([head[i]]) + ReservedCount(head[i + 1..])
    ensures Others(head) == Others(head[..i]) + Others([head[i]]) + Others(head[i + 1..])
  {
    var before, here, after := head[..i], [head[i]], head[i + 1..];
    assert head == before + here + after;
    ConcatThree(before, here, after);
  }

  /** Replacing a reserved element by another reserved element. */
  lemma {:induction false} ReplaceReserved(head: seq<Node>, i: nat, n: Node)
    requires i < |head| && IsCssNode(head[i]) && IsCssNode(n)
    ensures ReservedCount(head[i := n]) == ReservedCount(head)
    ensures Others(head[i := n]) == Others(head)
  {
    var h' := head[i := n];
    SplitAround(head, i);
    SplitAround(h', i);
    assert h'[..i] == head[..i] && h'[i + 1..] == head[i + 1..];
  }

  /** Removing the reserved element at `i`. */
  lemma {:induction false} RemoveReserved(head: seq<Node>, i: nat)
    requires i < |head| && IsCssNode(head[i])
    ensures ReservedCount(RemoveAt(head, i)) == ReservedCount(head) - 1
    ensures Others(RemoveAt(head, i)) == Others(head)
  {
    var before, here, after := head[..i], [head[i]], head[i + 1..];
    SplitAround(head, i);
    assert here[1..] == [];
    assert ReservedCount(here) == 1 && Others(here) == [];
    ReservedCountConcat(before, after);
    OthersConcat(before, after);
    assert Others(before) + [] == Others(before);
  }

  /** The first reserved element is found exactly when there is one. */
  lemma {:induction false} FoundIffReserved(head: seq<Node>)
    ensures FindCssNode(head).Some? <==> ReservedCount(head) >= 1
  {
    match FindCssNode(head)
    case None => NoReserved(head);
    case Some(i) =>
      SplitAround(head, i);
      assert [head[i]][1..] == [];
  }

  /** A reserved element with no reserved element before it is the one found. */
  lemma {:induction false} FindFirst(head: seq<Node>, i: nat)
    requires i < |head| && IsCssNode(head[i])
    requires forall j :: 0 <= j < i ==> !IsCssNode(head[j])
    ensures FindCssNode(head) == Some(i)
  {
  }

  /** An element appended to a head without reserved elements is the one found, if it is
      reserved. */
  lemma {:induction false} FindAppended(head: seq<Node>, n: Node)
    requires forall j :: 0 <= j < |head| ==> !IsCssNode(head[j])
    requires IsCssNode(n)
    ensures FindCssNode(head + [n]) == Some(|head|)
  {
    var after := head + [n];
    assert forall j :: 0 <= j < |head| ==> after[j] == head[j];
    FindFirst(after, |head|);
  }

  /** Removing the only reserved element and appending another one makes that one the
      first reserved element. */
  lemma {:induction false} ReplaceOnlyReserved(head: seq<Node>, i: nat, n: Node)
    requires i < |head| && IsCssNode(head[i]) && ReservedCount(head) == 1 && IsCssNode(n)
    ensures FindCssNode(RemoveAt(head, i) + [n]) == Some(|head| - 1)
  {
    var rest := RemoveAt(head, i);
    RemoveReserved(head, i);
    CountZero(rest);
    FindAppended(rest, n);
  }

  /** Removing the element at `i` of `head + [n]` equals removing it from `head` and then
      appending `n`. */
  lemma {:induction false} RemoveBeforeAppend(head: seq<Node>, i: nat, n: Node)
    requires i < |head|
    ensures RemoveAt(head + [n], i) == RemoveAt(head, i) + [n]
  {
    assert (head + [n])[..i] == head[..i];
    assert (head + [n])[i + 1..] == head[i + 1..] + [n];
  }

  /** Applying to a head without a reserved element appends the new link, which is then the
      first reserved element. */
  lemma {:induction false} AppliedFresh(resolve: string -> string, head: seq<Node>, scheme: Option<string>)
    requires FindCssNode(head).None?
    ensures Applied(resolve, head, scheme) == head + [CreateLinkNode(resolve, scheme)]
    ensures FindCssNode(Applied(resolve, head, scheme)) == Some(|head|)
  {
    FindAppended(head, CreateLinkNode(resolve, scheme));
  }

  /** Applying over a reserved `<link>` updates it where it stands. */
  lemma {:induction false} AppliedInPlace(resolve: string -> string, head: seq<Node>, scheme: Option<string>, i: nat)
    requires FindCssNode(head) == Some(i) && IsLink(head[i])
    ensures Applied(resolve, head, scheme) == head[i := UpdateCssNode(resolve, head[i], scheme)]
    ensures FindCssNode(Applied(resolve, head, scheme)) == Some(i)
  {
    var after := head[i := UpdateCssNode(resolve, head[i], scheme)];
    assert forall j :: 0 <= j < i ==> after[j] == head[j];
    FindFirst(after, i);
  }

  /** Applying over the only reserved element when it is not a `<link>` leaves the other
      elements followed by the new link, which is then the first reserved element. */
  lemma {:induction false} AppliedReplace(resolve: string -> string, head: seq<Node>, scheme: Option<string>, i: nat)
    requires FindCssNode(head) == Some(i) && !IsLink(head[i]) && ReservedCount(head) == 1
    ensures Applied(resolve, head, scheme) == RemoveAt(head, i) + [CreateLinkNode(resolve, scheme)]
    ensures FindCssNode(Applied(resolve, head, scheme)) == Some(|head| - 1)
  {
    var link := CreateLinkNode(resolve, scheme);
    AppliedReplaceShape(resolve, head, scheme, i);
    ReplaceOnlyReserved(head, i, link);
  }

  /** The first half of `AppliedReplace`: the shape of the new head. */
  lemma {:induction false} AppliedReplaceShape(resolve: string -> string, head: seq<Node>, scheme: Option<string>, i: nat)
    requires FindCssNode(head) == Some(i) && !IsLink(head[i])
    ensures Applied(resolve, head, scheme) == RemoveAt(head, i) + [CreateLinkNode(resolve, scheme)]
  {
    RemoveBeforeAppend(head, i, CreateLinkNode(resolve, scheme));
  }

  /** Applying a theme leaves exactly one reserved element when there was none or one, and
      never changes the count otherwise. */
  lemma {:induction false} ApplyReservedCount(resolve: string -> string, head: seq<Node>, scheme: Option<string>)
    ensures ReservedCount(Applied(resolve, head, scheme)) == (if ReservedCount(head) == 0 then 1 else ReservedCount(head))
  {
    var link := CreateLinkNode(resolve, scheme);
    ReservedCountConcat(head, [link]);
    OthersConcat(head, [link]);
    assert [link][1..] == [];
    match FindCssNode(head)
    case None =>
      NoReserved(head);
    case Some(i) =>
      FoundIffReserved(head);
      if IsLink(head[i]) {
        ReplaceReserved(head, i, UpdateCssNode(resolve, head[i], scheme));
      } else {
        RemoveReserved(head + [link], i);
      }
  }

  /** Applying and removing themes keeps every other element of the head, in order. */
  lemma {:induction false} ThemesKeepOthers(resolve: string -> string, head: seq<Node>, scheme: Option<string>)
    ensures Others(Applied(resolve, head, scheme)) == Others(head)
    ensures Others(Removed(head)) == Others(head)
  {
    var link := CreateLinkNode(resolve, scheme);
    ReservedCountConcat(head, [link]);
    OthersConcat(head, [link]);
    assert [link][1..] == [];
    assert Others([link]) == [];
    assert Others(head) + [] == Others(head);
    match FindCssNode(head)
    case None =>
      NoReserved(head);
    case Some(i) =>
      RemoveReserved(head, i);
      if IsLink(head[i]) {
        ReplaceReserved(head, i, UpdateCssNode(resolve, head[i], scheme));
      } else {
        RemoveReserved(head + [link], i);
      }
  }

  /** With at most one reserved element before, the first reserved element after an apply is
      a `<link>`. It points at the scheme's stylesheet and carries the scheme's text when the
      scheme is truthy or an old `<link>` was updated in place; otherwise it is a fresh link
      without `href` and `data-theme`. */
  lemma {:induction false} ApplyInstallsLink(resolve: string -> string, head: seq<Node>, scheme: Option<string>)
    requires ReservedCount(head) <= 1
    ensures var after := Applied(resolve, head, scheme);
      HasCssLink(after)
      && var n := after[FindCssNode(after).value];
      (Truthy(scheme) || HasCssLink(head) ==>
         "href" in n.attrs && CssThemeId in n.attrs
         && n.attrs["href"] == CssSchemeUrl(resolve, scheme) && n.attrs[CssThemeId] == SchemeText(scheme))
      && (!Truthy(scheme) && !HasCssLink(head) ==> "href" !in n.attrs && CssThemeId !in n.attrs)
  {
    match FindCssNode(head)
    case None =>
      AppliedFresh(resolve, head, scheme);
    case Some(i) =>
      if IsLink(head[i]) {
        AppliedInPlace(resolve, head, scheme, i);
      } else {
        FoundIffReserved(head);
        AppliedReplace(resolve, head, scheme, i);
      }
  }

  /** Updating an element twice keeps only the second update. */
  lemma {:induction false} UpdateOverrides(resolve: string -> string, n: Node, first: Option<string>, second: Option<string>)
    ensures UpdateCssNode(resolve, UpdateCssNode(resolve, n, first), second) == UpdateCssNode(resolve, n, second)
  {
    var a := UpdateCssNode(resolve, UpdateCssNode(resolve, n, first), second);
    var b := UpdateCssNode(resolve, n, second);
    assert a.attrs == b.attrs;
  }

  /** Updating a fresh link with a truthy scheme gives the link created for that scheme. */
  lemma {:induction false} UpdateFreshLink(resolve: string -> string, first: Option<string>, second: Option<string>)
    requires Truthy(second)
    ensures UpdateCssNode(resolve, CreateLinkNode(resolve, first), second) == CreateLinkNode(resolve, second)
  {
    var base := Node("LINK", BaseLinkAttrs());
    assert ToLower(base.tag) == "link";
    if Truthy(first) {
      UpdateOverrides(resolve, base, first, second);
    }
  }

  /** `ApplyOverrides` on a head without a reserved element. */
  lemma {:induction false} OverridesFresh(resolve: string -> string, head: seq<Node>, first: Option<string>, second: Option<string>)
    requires FindCssNode(head).None? && Truthy(second)
    ensures Applied(resolve, Applied(resolve, head, first), second) == Applied(resolve, head, second)
  {
    var mid := Applied(resolve, head, first);
    UpdateFreshLink(resolve, first, second);
    AppliedFresh(resolve, head, first);
    AppliedFresh(resolve, head, second);
    AppliedInPlace(resolve, mid, second, |head|);
    assert mid[|head| := CreateLinkNode(resolve, second)] == head + [CreateLinkNode(resolve, second)];
  }

  /** `ApplyOverrides` on a head whose first reserved element is a `<link>`. */
  lemma {:induction false} OverridesInPlace(resolve: string -> string, head: seq<Node>, first: Option<string>, second: Option<string>, i: nat)
    requires FindCssNode(head) == Some(i) && IsLink(head[i])
    ensures Applied(resolve, Applied(resolve, head, first), second) == Applied(resolve, head, second)
  {
    var mid := Applied(resolve, head, first);
    AppliedInPlace(resolve, head, first, i);
    AppliedInPlace(resolve, head, second, i);
    AppliedInPlace(resolve, mid, second, i);
    UpdateOverrides(resolve, head[i], first, second);
  }

  /** `ApplyOverrides` on a head whose only reserved element is not a `<link>`. */
  lemma {:induction false} OverridesReplace(resolve: string -> string, head: seq<Node>, first: Option<string>, second: Option<string>, i: nat)
    requires FindCssNode(head) == Some(i) && !IsLink(head[i]) && ReservedCount(head) == 1 && Truthy(second)
    ensures Applied(resolve, Applied(resolve, head, first), second) == Applied(resolve, head, second)
  {
    var mid := Applied(resolve, head, first);
    var rest := RemoveAt(head, i);
    UpdateFreshLink(resolve, first, second);
    AppliedReplace(resolve, head, first, i);
    AppliedReplace(resolve, head, second, i);
    AppliedInPlace(resolve, mid, second, |head| - 1);
    assert mid[|rest| := CreateLinkNode(resolve, second)] == rest + [CreateLinkNode(resolve, second)];
  }

  /** Applying `first` and then a truthy `second` gives the same head as applying `second`
      alone, when the head had at most one reserved element. */
  lemma {:induction false} ApplyOverrides(resolve: string -> string, head: seq<Node>, first: Option<string>, second: Option<string>)
    requires ReservedCount(head) <= 1 && Truthy(second)
    ensures Applied(resolve, Applied(resolve, head, first), second) == Applied(resolve, head, second)
  {
    match FindCssNode(head)
    case None => OverridesFresh(resolve, head, first, second);
    case Some(i) =>
      if IsLink(head[i]) {
        OverridesInPlace(resolve, head, first, second, i);
      } else {
        FoundIffReserved(head);
        OverridesReplace(resolve, head, first, second, i);
      }
  }

  /** The second apply must have a truthy scheme: re-applying an empty scheme over an applied
      theme leaves an updated link where applying it alone leaves a bare one. */
  lemma {:induction false} ApplyEmptyDoesNotOverride(resolve: string -> string)
    ensures Applied(resolve, Applied(resolve, [], Some("dark")), Some("")) != Applied(resolve, [], Some(""))
  {
    var mid := Applied(resolve, [], Some("dark"));
    AppliedFresh(resolve, [], Some("dark"));
    AppliedFresh(resolve, [], Some(""));
    AppliedInPlace(resolve, mid, Some(""), 0);
    assert "href" in Applied(resolve, mid, Some(""))[0].attrs;
    assert "href" !in Applied(resolve, [], Some(""))[0].attrs;
  }

  /** Removing takes away one reserved element when there is one. */
  lemma {:induction false} RemoveReservedCount(head: seq<Node>)
    ensures ReservedCount(Removed(head)) == (if ReservedCount(head) == 0 then 0 else ReservedCount(head) - 1)
    ensures ReservedCount(head) == 0 ==> Removed(head) == head
  {
    FoundIffReserved(head);
    match FindCssNode(head)
    case None =>
    case Some(i) => RemoveReserved(head, i);
  }

  /** A head whose reserved elements have all been removed is exactly its other elements. */
  lemma {:induction false} RemovedIsOthers(head: seq<Node>)
    requires ReservedCount(head) <= 1
    ensures Removed(head) == Others(head) && FindCssNode(Removed(head)) == None
  {
    RemoveReservedCount(head);
    CountZero(Removed(head));
    NoReserved(Removed(head));
    ThemesKeepOthers(a => a, head, None);
  }

  /** With at most one reserved element, removing leaves exactly the other elements, so a
      second remove changes nothing and an apply before a remove is undone by it. */
  lemma {:induction false} RemoveClears(resolve: string -> string, head: seq<Node>, scheme: Option<string>)
    requires ReservedCount(head) <= 1
    ensures Removed(head) == Others(head)
    ensures FindCssNode(Removed(head)) == None
    ensures Removed(Removed(head)) == Removed(head)
    ensures Removed(Applied(resolve, head, scheme)) == Removed(head)
  {
    RemovedIsOthers(head);
    var after := Applied(resolve, head, scheme);
    ApplyReservedCount(resolve, head, scheme);
    RemovedIsOthers(after);
    ThemesKeepOthers(resolve, head, scheme);
  }

  /** Replaying a mutation log with one more mutation is one more step. */
  lemma {:induction false} ReplaySnoc(head: seq<Node>, ms: seq<Mutation>, m: Mutation)
    ensures Replay(head, ms + [m]) == Step(Replay(head, ms), m)
  {
    assert (ms + [m])[..|ms + [m]| - 1] == ms;
  }

  /** Replaying one mutation is that mutation's step; replaying two is two steps. */
  lemma {:induction false} ReplayShort(head: seq<Node>, a: Mutation, b: Mutation)
    ensures Replay(head, [a]) == Step(head, a)
    ensures Replay(head, [a, b]) == Step(Step(head, a), b)
  {
    ReplaySnoc(head, [], a);
    ReplaySnoc(head, [a], b);
    assert [] + [a] == [a] && [a] + [b] == [a, b];
  }

  /** The recorded mutations of an apply, replayed on the old head, give the new head. */
  lemma {:induction false} ApplyReplays(resolve: string -> string, head: seq<Node>, scheme: Option<string>)
    ensures Replay(head, ApplyMutations(resolve, head, scheme)) == Applied(resolve, head, scheme)
  {
    var link := CreateLinkNode(resolve, scheme);
    match FindCssNode(head)
    case None =>
      ReplayShort(head, AppendChild(link), AppendChild(link));
    case Some(i) =>
      if IsLink(head[i]) {
        var url := CssSchemeUrl(resolve, scheme);
        ReplayShort(head, SetAttribute(i, "href", url), SetAttribute(i, CssThemeId, SchemeText(scheme)));
      } else {
        ReplayShort(head, AppendChild(link), RemoveChild(i));
      }
  }

  /** The recorded mutations of a remove, replayed on the old head, give the new head. */
  lemma {:induction false} RemoveReplays(head: seq<Node>)
    ensures Replay(head, RemoveMutations(head)) == Removed(head)
  {
    match FindCssNode(head)
    case None =>
    case Some(i) => ReplayShort(head, RemoveChild(i), RemoveChild(i));
  }

  /** A page that has a reserved element keeps one after every single mutation of an apply:
      the new link is appended before the old element goes, so no unstyled moment occurs. */
  lemma {:induction false} ApplyLeavesNoGap(resolve: string -> string, head: seq<Node>, scheme: Option<string>)
    requires ReservedCount(head) >= 1
    ensures var ms := ApplyMutations(resolve, head, scheme);
      forall k :: 0 <= k <= |ms| ==> ReservedCount(Replay(head, ms[..k])) >= 1
  {
    var ms := ApplyMutations(resolve, head, scheme);
    FoundIffReserved(head);
    ApplyReplays(resolve, head, scheme);
    ApplyReservedCount(resolve, head, scheme);
    var i := FindCssNode(head).value;
    var link := CreateLinkNode(resolve, scheme);
    assert |ms| == 2;
    ReplayShort(head, ms[0], ms[1]);
    if IsLink(head[i]) {
      ReplaceReserved(head, i, Node(head[i].tag, head[i].attrs["href" := CssSchemeUrl(resolve, scheme)]));
    } else {
      ReservedCountConcat(head, [link]);
      OthersConcat(head, [link]);
      assert [link][1..] == [];
    }
    assert ms[..0] == [] && ms[..1] == [ms[0]] && ms[..2] == ms;
  }

  /** The document head of one page, the URL resolver of the extension, and the mutations
      the script has made so far. */
  class Page {
    const resolveUrl: string -> string
    var head: seq<Node>
    var mutations: seq<Mutation>

    constructor (resolveUrl: string -> string, head: seq<Node>)
      ensures this.resolveUrl == resolveUrl && this.head == head && mutations == []
    {
      this.resolveUrl := resolveUrl;
      this.head := head;
      mutations := [];
    }

    /** `updateCssNode` on the element at index `i` of the head: two `setAttribute` calls. */
    method UpdateCssNodeAt(i: nat, scheme: Option<string>)
      requires i < |head|
      modifies this
      ensures head == old(head)[i := UpdateCssNode(resolveUrl, old(head)[i], scheme)]
      ensures mutations == old(mutations) + [SetAttribute(i, "href", CssSchemeUrl(resolveUrl, scheme)),
                                             SetAttribute(i, CssThemeId, SchemeText(scheme))]
    {
      var url := CssSchemeUrl(resolveUrl, scheme);
      head := head[i := Node(head[i].tag, head[i].attrs["href" := url])];
      mutations := mutations + [SetAttribute(i, "href", url)];
      head := head[i := Node(head[i].tag, head[i].attrs[CssThemeId := SchemeText(scheme)])];
      mutations := mutations + [SetAttribute(i, CssThemeId, SchemeText(scheme))];
    }

    /** `removeCssNode(oldNode)`: remove the given element, or else the first reserved one
        if there is any. */
    method RemoveCssNode(oldNode: Option<nat>)
      requires oldNode.Some? ==> oldNode.value < |head|
      modifies this
      ensures var target := if oldNode.Some? then oldNode else FindCssNode(old(head));
        head == (if target.Some? then RemoveAt(old(head), target.value) else old(head))
        && mutations == old(mutations) + (if target.Some? then [RemoveChild(target.value)] else [])
    {
      var nodeToRemove := if oldNode.Some? then oldNode else FindCssNode(head);
      if nodeToRemove.Some? {
        head := RemoveAt(head, nodeToRemove.value);
        mutations := mutations + [RemoveChild(nodeToRemove.value)];
      }
    }

    /** `applyCssScheme(scheme)`. */
    method ApplyCssScheme(scheme: Option<string>)
      modifies this
      ensures head == Applied(resolveUrl, old(head), scheme)
      ensures mutations == old(mutations) + ApplyMutations(resolveUrl, old(head), scheme)
    {
      var oldCssNode := FindCssNode(head);
      if oldCssNode.Some? && IsLink(head[oldCssNode.value]) {
        UpdateCssNodeAt(oldCssNode.value, scheme);
      } else {
        var newCssNode := CreateLinkNode(resolveUrl, scheme);
        head := head + [newCssNode];
        mutations := mutations + [AppendChild(newCssNode)];
        if oldCssNode.Some? {
          RemoveCssNode(oldCssNode);
        }
      }
    }

    /** `removeCssScheme()`. */
    method RemoveCssScheme()
      modifies this
      ensures head == Removed(old(head))
      ensures mutations == old(mutations) + RemoveMutations(old(head))
    {
      RemoveCssNode(None);
    }

    /** The `runtime.onMessage` listener. */
    method OnMessage(request: Message)
      modifies this
      ensures head == Handled(resolveUrl, old(head), request)
      ensures mutations == old(mutations) + HandledMutations(resolveUrl, old(head), request)
    {
      if request.command == CommandApply {
        ApplyCssScheme(request.scheme);
      } else if request.command == CommandRemove {
        RemoveCssScheme();
      } else {
        assert old(mutations) + [] == mutations;
      }
    }
  }
}
