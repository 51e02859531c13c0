/** Package-UI component trees and the widgets that render them
    (src/shell/package_ui.rs and src/masonry_package_region.rs).

    A component carries `hash`, the value of `stable_package_source_id` on its id.
    A widget carries the data its kind paints from (`body`), the state its user
    changes (`local`) and its children. */
module PackageUi {
  import opened Wrappers

  type Hash = nat
  type WidgetId = nat

  datatype Kind =
    | Panel | Flex | Stack | Overlay | Scroll | Portal
    | Button | List | Label | StatusItem | EditorView
    | Collapse | Modal | TextInput | Dropdown
    | Other(name: string)

  datatype Item = Item(id: string, caption: string, detail: Option<string>, command: Option<string>,
                       selected: bool, disabled: bool)

  datatype Component = Component(
    hash: Hash,
    id: string,
    kind: Kind,
    fontRole: nat,
    variant: Option<nat>,
    title: Option<string>,
    text: Option<string>,
    caption: Option<string>,
    command: Option<string>,
    items: seq<Item>,
    children: seq<Component>,
    disabled: bool,
    validation: Option<string>
  )

  /** Typography and theme, with the default text variants of the theme. */
  datatype Context = Context(typography: nat, theme: nat, titleText: nat, bodyText: nat, statusText: nat)

  const UI_FONT: nat := 0

  datatype Intent = Intent(command: string, source: string)

  datatype Entry = Entry(caption: string, intent: Option<Intent>)

  datatype Body =
    | LeafBody(text: string, fontRole: nat, variant: nat, isTitle: bool, dimmed: bool, depth: nat, context: Context)
    | ButtonBody(caption: string, intent: Option<Intent>, fontRole: nat, variant: nat, depth: nat, context: Context)
    | RowBody(caption: string, detail: Option<string>, intent: Option<Intent>, selected: bool, depth: nat,
              context: Context)
    | ColumnBody
    | CollapseBody(caption: string, dimmed: bool, fontRole: nat, variant: nat, depth: nat, context: Context)
    | ModalBody(hash: Hash, caption: string, dimmed: bool, depth: nat, context: Context)
    | DropdownBody(fallback: string, entries: seq<Entry>, dimmed: bool, fontRole: nat, variant: nat, depth: nat,
                   context: Context)
    | InputBody(intent: Option<Intent>, placeholder: string, validation: Option<string>, serverText: Option<string>,
                dimmed: bool, fontRole: nat, variant: nat, depth: nat, context: Context)

  /** What the user changes and a reconcile must keep. */
  datatype Local =
    | NoLocal
    | CollapseState(expanded: bool)
    | ModalState(focusIndex: Option<nat>)
    | DropdownState(chosen: nat, isOpen: bool)
    | InputState(area: WidgetId, areaText: string, focused: bool)

  datatype Widget = Widget(id: WidgetId, body: Body, local: Local, children: seq<Widget>)

  // -------------------------------------------------------------- widget bodies

  function GetOr<T>(option: Option<T>, default: T): T {
    if option.Some? then option.value else default
  }

  function Else<T>(first: Option<T>, second: Option<T>): Option<T> {
    if first.Some? then first else second
  }

  function ButtonIntent(c: Component): Option<Intent> {
    if c.command.Some? && !c.disabled then Some(Intent(c.command.value, c.id)) else None
  }

  function ItemIntent(c: Component, item: Item): Option<Intent> {
    if item.command.Some? && !item.disabled then Some(Intent(item.command.value, c.id + "." + item.id)) else None
  }

  function InputIntent(c: Component): Option<Intent> {
    if c.disabled then None else Some(Intent(GetOr(c.command, "ui.textInputCommit"), c.id))
  }

  /** `PackageLeaf::from_component`. */
  function LeafFrom(c: Component, depth: nat, context: Context): Body {
    match c.kind
    case StatusItem =>
      LeafBody(GetOr(Else(c.text, c.caption), c.id), c.fontRole, GetOr(c.variant, context.statusText), false, c.disabled,
               depth, context)
    case EditorView =>
      LeafBody("Editor view \U{00B7} " + c.id, UI_FONT, context.bodyText, false, c.disabled, depth, context)
    case _ =>
      LeafBody(GetOr(Else(c.text, c.caption), c.id), c.fontRole, GetOr(c.variant, context.bodyText), false, c.disabled,
               depth, context)
  }

  /** `PackageLeaf::placeholder`. */
  function Placeholder(c: Component, depth: nat, context: Context): Body {
    LeafBody(GetOr(Else(Else(c.caption, c.title), c.text), c.id), c.fontRole, GetOr(c.variant, context.bodyText), false,
             true, depth, context)
  }

  /** `PackageLeaf::panel_title`. */
  function TitleBody(c: Component, depth: nat, context: Context): Body {
    LeafBody(GetOr(c.title, ""), c.fontRole, GetOr(c.variant, context.titleText), true, c.disabled, depth, context)
  }

  /** `PackageListRow::from_item`. */
  function RowFrom(c: Component, item: Item, depth: nat, context: Context): Body {
    RowBody(item.caption, item.detail, ItemIntent(c, item), item.selected, depth, context)
  }

  function Entries(c: Component): seq<Entry> {
    seq(|c.items|, i requires 0 <= i < |c.items| => Entry(c.items[i].caption, ItemIntent(c, c.items[i])))
  }

  function DropdownFrom(c: Component, depth: nat, context: Context): Body {
    DropdownBody(GetOr(Else(Else(c.caption, c.text), c.title), c.id), Entries(c), c.disabled, c.fontRole,
                 GetOr(c.variant, context.bodyText), depth, context)
  }

  function CollapseTitle(c: Component): string {
    GetOr(Else(c.title, c.caption), c.id)
  }

  /** The body a fresh widget of a component is built with. */
  function BuiltBody(c: Component, depth: nat, context: Context): Body {
    match c.kind
    case Button =>
      ButtonBody(GetOr(c.caption, c.id), ButtonIntent(c), c.fontRole, GetOr(c.variant, context.bodyText), depth, context)
    case Label => LeafFrom(c, depth, context)
    case StatusItem => LeafFrom(c, depth, context)
    case EditorView => LeafFrom(c, depth, context)
    case Collapse =>
      CollapseBody(CollapseTitle(c), c.disabled, c.fontRole, GetOr(c.variant, context.titleText), depth, context)
    case Modal => ModalBody(c.hash, CollapseTitle(c), c.disabled, depth, context)
    case Dropdown => DropdownFrom(c, depth, context)
    case TextInput =>
      InputBody(InputIntent(c), GetOr(Else(c.caption, c.title), ""), c.validation, c.text, c.disabled, c.fontRole,
                GetOr(c.variant, context.bodyText), depth, context)
    case Other(_) => Placeholder(c, depth, context)
    case _ => ColumnBody
  }

  /** The body a surviving widget has after an in-place update.  Each arm updates
      only the fields the code assigns; a widget of another type is left alone. */
  function UpdatedBody(before: Body, c: Component, depth: nat, context: Context): Body {
    match c.kind
    case Button => if before.ButtonBody? then BuiltBody(c, depth, context) else before
    case TextInput => if before.InputBody? then BuiltBody(c, depth, context) else before
    case Collapse =>
      if before.CollapseBody? then
        before.(caption := CollapseTitle(c), dimmed := c.disabled, fontRole := c.fontRole,
              variant := GetOr(c.variant, context.titleText), context := context)
      else before
    case Modal =>
      if before.ModalBody? then before.(caption := CollapseTitle(c), dimmed := c.disabled, context := context) else before
    case Dropdown => if before.DropdownBody? then DropdownFrom(c, before.depth, context) else before
    case Label => if before.LeafBody? then LeafFrom(c, depth, context) else before
    case StatusItem => if before.LeafBody? then LeafFrom(c, depth, context) else before
    case EditorView => if before.LeafBody? then LeafFrom(c, depth, context) else before
    case Other(_) => if before.LeafBody? then LeafFrom(c, depth, context) else before
    case _ => before
  }

  /** An unknown kind is built as a placeholder but updated as a label; the two
      agree only for such components. */
  predicate Replayable(c: Component) {
    c.kind.Other? ==> c.disabled && GetOr(Else(Else(c.caption, c.title), c.text), c.id) == GetOr(Else(c.text, c.caption), c.id)
  }

  /** Updating the widget of an old component of the same kind and id, at the same
      depth, gives the body a rebuild would give, exactly when the component is
      replayable. */
  lemma UpdateAgreesWithBuild(o: Component, c: Component, depth: nat, before: Context, context: Context)
    requires o.kind == c.kind && o.hash == c.hash
    ensures UpdatedBody(BuiltBody(o, depth, before), c, depth, context) == BuiltBody(c, depth, context) <==> Replayable(c)
  {
  }

  // ------------------------------------------------------------------ local state

  /** The position of the server-marked item, or the first. */
  function InitialChoice(items: seq<Item>): nat {
    if items == [] then 0
    else if items[0].selected then 0
    else if exists i | 0 <= i < |items| :: items[i].selected then 1 + InitialChoice(items[1..])
    else 0
  }

  function BuiltLocal(c: Component, area: WidgetId): Local {
    match c.kind
    case Collapse => CollapseState(false)
    case Modal => ModalState(None)
    case Dropdown => DropdownState(InitialChoice(c.items), false)
    case TextInput => InputState(area, GetOr(c.text, ""), false)
    case _ => NoLocal
  }

  /** What an in-place update does to the state: a collapse and a modal keep theirs,
      a dropdown keeps its choice within the new items, a text field adopts a changed
      server value unless it is being edited. */
  function KeptLocal(before: Body, local: Local, c: Component): Local {
    match local
    case DropdownState(chosen, isOpen) =>
      var last := if c.items == [] then 0 else |c.items| - 1;
      if c.kind.Dropdown? then DropdownState(if chosen < last then chosen else last, isOpen) else local
    case InputState(area, text, focused) =>
      if c.kind.TextInput? && before.InputBody? && before.serverText != c.text && !focused then
        InputState(area, GetOr(c.text, ""), focused)
      else local
    case _ => local
  }

  /** The text the server gives a field. */
  function ServerText(c: Component): string {
    if c.text.Some? then c.text.value else ""
  }

  /** The first item the server marked, or the first item. */
  ghost predicate IsFirstMarked(items: seq<Item>, chosen: nat) {
    if forall k | 0 <= k < |items| :: !items[k].selected then chosen == 0
    else chosen < |items| && items[chosen].selected && forall k | 0 <= k < chosen :: !items[k].selected
  }

  /** The state a fresh widget starts in: collapsed, without a focus of its own, closed
      at the first marked item, with the server's text and not being edited. */
  ghost predicate IsStart(local: Local, c: Component) {
    match c.kind
    case Collapse => local == CollapseState(false)
    case Modal => local == ModalState(None)
    case Dropdown => local.DropdownState? && !local.isOpen && IsFirstMarked(c.items, local.chosen)
    case TextInput => local.InputState? && local.areaText == ServerText(c) && !local.focused
    case _ => local == NoLocal
  }

  lemma {:induction false} InitialChoiceIsFirstMarked(items: seq<Item>)
    ensures IsFirstMarked(items, InitialChoice(items))
  {
    if items != [] && !items[0].selected && exists i | 0 <= i < |items| :: items[i].selected {
      var i :| 0 <= i < |items| && items[i].selected;
      var rest := items[1..];
      assert rest[i - 1].selected;
      InitialChoiceIsFirstMarked(rest);
    }
  }

  lemma BuiltLocalStarts(c: Component, area: WidgetId)
    ensures IsStart(BuiltLocal(c, area), c) && LocalFits(BuiltLocal(c, area), c.kind)
  {
    InitialChoiceIsFirstMarked(c.items);
  }

  /** A choice that is an index of the new items stays; one that is not becomes the last
      index, or 0 when there are none. */
  predicate ChoiceKept(before: nat, count: nat, after: nat) {
    if before < count then after == before else if count > 0 then after == count - 1 else after == 0
  }

  /** The server changed the text of the field since the widget last saw it. */
  predicate ServerTextChanged(before: Body, c: Component) {
    c.kind.TextInput? && before.InputBody? && before.serverText != c.text
  }

  /** What an in-place update leaves of the state. */
  predicate IsKept(before: Body, local: Local, c: Component, after: Local) {
    match local
    case NoLocal => after == local
    case CollapseState(_) => after == local
    case ModalState(_) => after == local
    case DropdownState(chosen, isOpen) =>
      && after.DropdownState? && after.isOpen == isOpen
      && (c.kind.Dropdown? ==> ChoiceKept(chosen, |c.items|, after.chosen))
      && (!c.kind.Dropdown? ==> after.chosen == chosen)
    case InputState(area, areaText, focused) =>
      && after.InputState? && after.area == area && after.focused == focused
      && (focused || !ServerTextChanged(before, c) ==> after.areaText == areaText)
      && (!focused && ServerTextChanged(before, c) ==> after.areaText == ServerText(c))
  }

  lemma KeptLocalKeeps(before: Body, local: Local, c: Component, after: Local)
    ensures IsKept(before, local, c, after) <==> after == KeptLocal(before, local, c)
  {
  }

  /** The state belongs to a widget of the kind. */
  predicate LocalFits(local: Local, kind: Kind) {
    match kind
    case Collapse => local.CollapseState?
    case Modal => local.ModalState?
    case Dropdown => local.DropdownState?
    case TextInput => local.InputState?
    case _ => local.NoLocal?
  }

  // ---------------------------------------------------------------------- children

  /** One child of a container's column. */
  datatype Kid = TitleKid | RowKid(item: Item) | ChildKid(component: Component)

  datatype ChildKey = ComponentKey(hash: Hash, kind: Kind) | TitleKey | RowKey(item: string)

  function ChildKids(children: seq<Component>): (kids: seq<Kid>)
    ensures |kids| == |children|
    ensures forall i | 0 <= i < |kids| :: kids[i] == ChildKid(children[i])
  {
    seq(|children|, i requires 0 <= i < |children| => ChildKid(children[i]))
  }

  function RowKids(items: seq<Item>): (kids: seq<Kid>)
    ensures |kids| == |items|
    ensures forall i | 0 <= i < |kids| :: kids[i] == RowKid(items[i])
  {
    seq(|items|, i requires 0 <= i < |items| => RowKid(items[i]))
  }

  predicate IsContainer(kind: Kind) {
    kind.Panel? || kind.Flex? || kind.Stack? || kind.Overlay? || kind.Scroll? || kind.Portal? || kind.Collapse?
    || kind.Modal?
  }

  /** The kinds whose children are reconciled, and the widgets that have a column for
      them. */
  predicate HasColumn(kind: Kind) {
    IsContainer(kind) || kind.List?
  }

  predicate HoldsColumn(body: Body, kind: Kind) {
    match kind
    case Collapse => body.CollapseBody?
    case Modal => body.ModalBody?
    case _ => body.ColumnBody?
  }

  /** The rendered children of a component, in order. */
  function Kids(c: Component): (kids: seq<Kid>)
    ensures forall i | 0 <= i < |kids| :: kids[i].ChildKid? ==> kids[i].component in c.children
    ensures forall i | 0 <= i < |kids| :: kids[i].RowKid? ==> kids[i].item in c.items
  {
    if c.kind.Panel? && c.title.Some? then [TitleKid] + ChildKids(c.children)
    else if IsContainer(c.kind) then ChildKids(c.children)
    else if c.kind.List? then RowKids(c.items)
    else []
  }

  function KeyOf(kid: Kid): ChildKey {
    match kid
    case TitleKid => TitleKey
    case RowKid(item) => RowKey(item.id)
    case ChildKid(c) => ComponentKey(c.hash, c.kind)
  }

  function Keys(c: Component): (keys: seq<ChildKey>)
    ensures |keys| == |Kids(c)|
    ensures forall i | 0 <= i < |keys| :: keys[i] == KeyOf(Kids(c)[i])
  {
    seq(|Kids(c)|, i requires 0 <= i < |Kids(c)| => KeyOf(Kids(c)[i]))
  }

  function ComponentKeys(children: seq<Component>): (keys: seq<ChildKey>)
    ensures |keys| == |children|
    ensures forall i | 0 <= i < |keys| :: keys[i] == ComponentKey(children[i].hash, children[i].kind)
  {
    seq(|children|, i requires 0 <= i < |children| => ComponentKey(children[i].hash, children[i].kind))
  }

  /** `container_keys`, arm by arm. */
  function ContainerKeys(c: Component): seq<ChildKey> {
    match c.kind
    case Panel => (if c.title.Some? then [TitleKey] else []) + ComponentKeys(c.children)
    case List => seq(|c.items|, i requires 0 <= i < |c.items| => RowKey(c.items[i].id))
    case _ => ComponentKeys(c.children)
  }

  /** For the kinds that have a column, `container_keys` lists what is rendered. */
  lemma ContainerKeysAreKeys(c: Component)
    requires HasColumn(c.kind)
    ensures ContainerKeys(c) == Keys(c)
  {
    var keys := ContainerKeys(c);
    assert |keys| == |Kids(c)|;
    forall i | 0 <= i < |keys|
      ensures keys[i] == KeyOf(Kids(c)[i])
    {
    }
  }

  /** `child_depth`, given the depth `reconcile_flex_children` is called with. */
  function ChildDepth(key: ChildKey, depth: nat, parentIsPanel: bool): nat {
    match key
    case TitleKey => depth
    case ComponentKey(_, _) => if parentIsPanel then depth + 1 else depth
    case RowKey(_) => depth
  }

  /** The depth the children of a component at `depth` are laid out from. */
  function ColumnDepth(kind: Kind, depth: nat): nat {
    if kind.Collapse? || kind.Modal? then depth + 1 else depth
  }

  function KidDepth(c: Component, key: ChildKey, depth: nat): nat {
    ChildDepth(key, ColumnDepth(c.kind, depth), c.kind.Panel?)
  }
}
