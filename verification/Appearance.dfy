/** What the widget of a component paints, which children it renders and how deep they
    are laid out, kind by kind (src/masonry_package_region.rs). */
module Appearance {
  import opened Wrappers
  import opened PackageUi

  // ------------------------------------------------------------------------ bodies

  /** The first of the texts that is present, or the fallback. */
  ghost predicate IsFirstPresent(texts: seq<Option<string>>, fallback: string, text: string) {
    || (exists i | 0 <= i < |texts| :: texts[i] == Some(text) && forall k | 0 <= k < i :: texts[k] == None)
    || (text == fallback && forall k | 0 <= k < |texts| :: texts[k] == None)
  }

  /** A command is sent, in the name of `source`, exactly when there is one and the
      control is enabled. */
  predicate Sends(intent: Option<Intent>, command: Option<string>, disabled: bool, source: string) {
    match intent
    case None => disabled || command == None
    case Some(sent) => !disabled && command == Some(sent.command) && sent.source == source
  }

  /** An enabled text field always sends: its command, or the default one. */
  predicate Commits(intent: Option<Intent>, command: Option<string>, disabled: bool, source: string) {
    match intent
    case None => disabled
    case Some(sent) =>
      && !disabled && sent.source == source
      && (command == Some(sent.command) || (command == None && sent.command == "ui.textInputCommit"))
  }

  predicate HasVariant(c: Component, default: nat, variant: nat) {
    c.variant == Some(variant) || (c.variant == None && variant == default)
  }

  ghost predicate IsLeaf(body: Body, c: Component, texts: seq<Option<string>>, default: nat, isTitle: bool, dimmed: bool) {
    && body.LeafBody? && IsFirstPresent(texts, c.id, body.text)
    && body.fontRole == c.fontRole && HasVariant(c, default, body.variant) && body.isTitle == isTitle && body.dimmed == dimmed
  }

  ghost predicate IsEntry(entry: Entry, c: Component, item: Item) {
    entry.caption == item.caption && Sends(entry.intent, item.command, item.disabled, c.id + "." + item.id)
  }

  ghost predicate AreEntries(entries: seq<Entry>, c: Component) {
    |entries| == |c.items| && forall i | 0 <= i < |entries| :: IsEntry(entries[i], c, c.items[i])
  }

  /** What a widget of the component paints, apart from depth and theme. */
  ghost predicate Paints(body: Body, c: Component, context: Context) {
    match c.kind
    case Label => IsLeaf(body, c, [c.text, c.caption], context.bodyText, false, c.disabled)
    case StatusItem => IsLeaf(body, c, [c.text, c.caption], context.statusText, false, c.disabled)
    case EditorView =>
      && body.LeafBody? && body.text == "Editor view \U{00B7} " + c.id && body.fontRole == UI_FONT
      && body.variant == context.bodyText && !body.isTitle && body.dimmed == c.disabled
    case Other(_) => IsLeaf(body, c, [c.caption, c.title, c.text], context.bodyText, false, true)
    case Button =>
      && body.ButtonBody? && IsFirstPresent([c.caption], c.id, body.caption)
      && Sends(body.intent, c.command, c.disabled, c.id)
      && body.fontRole == c.fontRole && HasVariant(c, context.bodyText, body.variant)
    case Collapse =>
      && body.CollapseBody? && IsFirstPresent([c.title, c.caption], c.id, body.caption) && body.dimmed == c.disabled
      && body.fontRole == c.fontRole && HasVariant(c, context.titleText, body.variant)
    case Modal =>
      && body.ModalBody? && body.hash == c.hash && IsFirstPresent([c.title, c.caption], c.id, body.caption)
      && body.dimmed == c.disabled
    case Dropdown =>
      && body.DropdownBody? && IsFirstPresent([c.caption, c.text, c.title], c.id, body.fallback)
      && AreEntries(body.entries, c) && body.dimmed == c.disabled
      && body.fontRole == c.fontRole && HasVariant(c, context.bodyText, body.variant)
    case TextInput =>
      && body.InputBody? && Commits(body.intent, c.command, c.disabled, c.id)
      && IsFirstPresent([c.caption, c.title], "", body.placeholder)
      && body.validation == c.validation && body.serverText == c.text && body.dimmed == c.disabled
      && body.fontRole == c.fontRole && HasVariant(c, context.bodyText, body.variant)
    case Panel => body.ColumnBody?
    case Flex => body.ColumnBody?
    case Stack => body.ColumnBody?
    case Overlay => body.ColumnBody?
    case Scroll => body.ColumnBody?
    case Portal => body.ColumnBody?
    case List => body.ColumnBody?
  }

  predicate LaidOut(body: Body, depth: nat, context: Context) {
    body.ColumnBody? || (body.depth == depth && body.context == context)
  }

  lemma FirstOfOne(a: Option<string>, fallback: string, text: string)
    ensures IsFirstPresent([a], fallback, text) <==> text == GetOr(a, fallback)
  {
    assert [a][0] == a;
  }

  lemma FirstOfTwo(a: Option<string>, b: Option<string>, fallback: string, text: string)
    ensures IsFirstPresent([a, b], fallback, text) <==> text == GetOr(Else(a, b), fallback)
  {
    var texts := [a, b];
    assert texts[0] == a && texts[1] == b;
  }

  lemma FirstOfThree(a: Option<string>, b: Option<string>, c: Option<string>, fallback: string, text: string)
    ensures IsFirstPresent([a, b, c], fallback, text) <==> text == GetOr(Else(Else(a, b), c), fallback)
  {
    var texts := [a, b, c];
    assert texts[0] == a && texts[1] == b && texts[2] == c;
  }

  lemma EntriesAreEntries(entries: seq<Entry>, c: Component)
    ensures AreEntries(entries, c) <==> entries == Entries(c)
  {
    if AreEntries(entries, c) {
      forall i | 0 <= i < |entries|
        ensures entries[i] == Entries(c)[i]
      {
        assert IsEntry(entries[i], c, c.items[i]);
      }
    }
  }

  lemma Texts(body: Body, c: Component)
    ensures body.LeafBody? ==> (IsFirstPresent([c.text, c.caption], c.id, body.text) <==>
                                body.text == GetOr(Else(c.text, c.caption), c.id))
    ensures body.LeafBody? ==> (IsFirstPresent([c.caption, c.title, c.text], c.id, body.text) <==>
                                body.text == GetOr(Else(Else(c.caption, c.title), c.text), c.id))
    ensures body.ButtonBody? ==> (IsFirstPresent([c.caption], c.id, body.caption) <==> body.caption == GetOr(c.caption, c.id))
    ensures body.CollapseBody? || body.ModalBody? ==>
              (IsFirstPresent([c.title, c.caption], c.id, body.caption) <==> body.caption == CollapseTitle(c))
    ensures body.DropdownBody? ==> (IsFirstPresent([c.caption, c.text, c.title], c.id, body.fallback) <==>
                                    body.fallback == GetOr(Else(Else(c.caption, c.text), c.title), c.id))
    ensures body.InputBody? ==> (IsFirstPresent([c.caption, c.title], "", body.placeholder) <==>
                                 body.placeholder == GetOr(Else(c.caption, c.title), ""))
  {
    if body.LeafBody? {
      FirstOfTwo(c.text, c.caption, c.id, body.text);
      FirstOfThree(c.caption, c.title, c.text, c.id, body.text);
    } else if body.ButtonBody? {
      FirstOfOne(c.caption, c.id, body.caption);
    } else if body.CollapseBody? || body.ModalBody? {
      FirstOfTwo(c.title, c.caption, c.id, body.caption);
    } else if body.DropdownBody? {
      FirstOfThree(c.caption, c.text, c.title, c.id, body.fallback);
    } else if body.InputBody? {
      FirstOfTwo(c.caption, c.title, "", body.placeholder);
    }
  }

  predicate IsLeafKind(kind: Kind) {
    kind.Label? || kind.StatusItem? || kind.EditorView? || kind.Other?
  }

  lemma LeafPaints(body: Body, c: Component, depth: nat, context: Context)
    requires IsLeafKind(c.kind)
    ensures Paints(body, c, context) && LaidOut(body, depth, context) <==> body == BuiltBody(c, depth, context)
  {
    Texts(body, c);
  }

  lemma ControlPaints(body: Body, c: Component, depth: nat, context: Context)
    requires !IsLeafKind(c.kind)
    ensures Paints(body, c, context) && LaidOut(body, depth, context) <==> body == BuiltBody(c, depth, context)
  {
    Texts(body, c);
    if body.DropdownBody? {
      EntriesAreEntries(body.entries, c);
    }
  }

  /** A widget is built with exactly the body that paints its component. */
  lemma BuiltPaints(body: Body, c: Component, depth: nat, context: Context)
    ensures Paints(body, c, context) && LaidOut(body, depth, context) <==> body == BuiltBody(c, depth, context)
  {
    if IsLeafKind(c.kind) {
      LeafPaints(body, c, depth, context);
    } else {
      ControlPaints(body, c, depth, context);
    }
  }

  /** The type of the widget that the update of a kind expects. */
  predicate IsBodyOf(body: Body, kind: Kind) {
    match kind
    case Label => body.LeafBody?
    case StatusItem => body.LeafBody?
    case EditorView => body.LeafBody?
    case Other(_) => body.LeafBody?
    case Button => body.ButtonBody?
    case Collapse => body.CollapseBody?
    case Modal => body.ModalBody?
    case Dropdown => body.DropdownBody?
    case TextInput => body.InputBody?
    case _ => body.ColumnBody?
  }

  lemma UpdatedLeafPaints(before: Body, c: Component, depth: nat, context: Context)
    requires IsBodyOf(before, c.kind) && IsLeafKind(c.kind)
    ensures var after, painted := UpdatedBody(before, c, depth, context), if c.kind.Other? then c.(kind := Label) else c;
            Paints(after, painted, context) && LaidOut(after, depth, context)
  {
    Texts(UpdatedBody(before, c, depth, context), c);
  }

  predicate KeepsDepth(kind: Kind) {
    kind.Collapse? || kind.Modal? || kind.Dropdown?
  }

  lemma UpdatedControlPaints(before: Body, c: Component, depth: nat, context: Context)
    requires IsBodyOf(before, c.kind) && !IsLeafKind(c.kind)
    ensures var after, painted := UpdatedBody(before, c, depth, context),
                                  if c.kind.Modal? then c.(hash := before.hash) else c;
            && Paints(after, painted, context)
            && LaidOut(after, if KeepsDepth(c.kind) then before.depth else depth, context)
  {
    var after := UpdatedBody(before, c, depth, context);
    Texts(after, c);
    if after.DropdownBody? {
      EntriesAreEntries(after.entries, c);
    }
  }

  /** An update paints the new component on a widget of the expected type: a section, a
      dialog and a choice stay where they are laid out, a dialog keeps its hash, and an
      unknown kind is painted as a label.  A widget of another type is left alone. */
  lemma UpdatedPaints(before: Body, c: Component, depth: nat, context: Context)
    ensures var after := UpdatedBody(before, c, depth, context);
            if !IsBodyOf(before, c.kind) then after == before
            else
              var painted := if c.kind.Other? then c.(kind := Label)
                             else if c.kind.Modal? then c.(hash := before.hash) else c;
              && Paints(after, painted, context)
              && LaidOut(after, if KeepsDepth(c.kind) then before.depth else depth, context)
  {
    if IsBodyOf(before, c.kind) {
      if IsLeafKind(c.kind) {
        UpdatedLeafPaints(before, c, depth, context);
      } else {
        UpdatedControlPaints(before, c, depth, context);
      }
    }
  }

  /** The title of a panel. */
  lemma TitlePaints(c: Component, depth: nat, context: Context)
    ensures var body := TitleBody(c, depth, context);
            && body.LeafBody? && body.isTitle && body.dimmed == c.disabled && LaidOut(body, depth, context)
            && (c.title.Some? ==> body.text == c.title.value)
            && body.fontRole == c.fontRole && HasVariant(c, context.titleText, body.variant)
  {
  }

  /** A row of a list sends its item's command in the name of list and item. */
  lemma RowPaints(c: Component, item: Item, depth: nat, context: Context)
    ensures var body := RowFrom(c, item, depth, context);
            && body.RowBody? && body.caption == item.caption && body.detail == item.detail
            && body.selected == item.selected && LaidOut(body, depth, context)
            && Sends(body.intent, item.command, item.disabled, c.id + "." + item.id)
  {
  }

  // ---------------------------------------------------------------------- children

  /** `kid` is the `i`-th rendered child. */
  predicate IsKid(c: Component, i: nat, kid: Kid) {
    match c.kind
    case Panel =>
      if c.title == None then IsChildAt(c, i, kid) else if i == 0 then kid == TitleKid else IsChildAt(c, i - 1, kid)
    case Flex => IsChildAt(c, i, kid)
    case Stack => IsChildAt(c, i, kid)
    case Overlay => IsChildAt(c, i, kid)
    case Scroll => IsChildAt(c, i, kid)
    case Portal => IsChildAt(c, i, kid)
    case Collapse => IsChildAt(c, i, kid)
    case Modal => IsChildAt(c, i, kid)
    case List => i < |c.items| && kid == RowKid(c.items[i])
    case Button => false
    case Label => false
    case StatusItem => false
    case EditorView => false
    case TextInput => false
    case Dropdown => false
    case Other(_) => false
  }

  predicate IsChildAt(c: Component, i: nat, kid: Kid) {
    i < |c.children| && kid == ChildKid(c.children[i])
  }

  /** A titled panel renders its title and then its children, the other containers their
      children, a list its items, and nothing else renders children. */
  lemma KidsAre(c: Component, i: nat, kid: Kid)
    ensures IsKid(c, i, kid) <==> i < |Kids(c)| && Kids(c)[i] == kid
  {
  }

  /** The components of a panel, a section and a dialog are one level deeper, everything
      else is laid out at the depth of its parent. */
  lemma KidDepthIs(c: Component, i: nat, depth: nat)
    requires i < |Kids(c)|
    ensures KidDepth(c, KeyOf(Kids(c)[i]), depth) ==
            if Kids(c)[i].ChildKid? && (c.kind.Panel? || c.kind.Collapse? || c.kind.Modal?) then depth + 1 else depth
  {
  }

  /** The kinds that have a column are those that may render children. */
  lemma ColumnsHoldKids(c: Component, depth: nat, context: Context)
    ensures Kids(c) != [] ==> HasColumn(c.kind) && HoldsColumn(BuiltBody(c, depth, context), c.kind)
    ensures HasColumn(c.kind) ==>
              HoldsColumn(BuiltBody(c, depth, context), c.kind) && IsBodyOf(BuiltBody(c, depth, context), c.kind)
  {
  }
}
