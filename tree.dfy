/**
 * The menu tree builder (src/menu/tree.rs, lines 80-435).
 *
 * The accessibility API is not part of this model.  An element of the live
 * hierarchy is represented by a `RawElem` value that records what the API
 * would answer about it: the batch of menu-item attributes, the one-attribute
 * role peek, the `AXChildren` and `AXVisibleChildren` arrays and the status
 * code of pressing it.  Each answer may be an `AXError`.  A batch that comes
 * back null is taken to be a sequence of `None`s of the requested length
 * (src/ax/element.rs:250-253), which is one of the sequences a `RawElem`
 * can hold.
 *
 * The recursive walk is given twice: as the functions `WalkNode`,
 * `ChildrenOf` and `CollectFrom`, which state what the builder computes, and
 * as the methods `WalkElement` and `CollectChildren`, which do it with the
 * loop of the Rust code and are proved to agree with the functions.
 */
module Tree {
  import opened Wrappers
  import AxErrors
  import opened MenuErrors
  import opened Shortcut
  import opened PathCodec

  /** Slots of the standard attribute batch (src/ax/element.rs:337-360). */
  const TitleIdx: nat := 0
  const EnabledIdx: nat := 1
  const MarkCharIdx: nat := 2
  const CmdCharIdx: nat := 3
  const CmdModifiersIdx: nat := 4
  const RoleIdx: nat := 5
  const ChildrenIdx: nat := 6
  const PrimaryUIElementIdx: nat := 7

  const MenuRole: string := "AXMenu"
  const SeparatorRole: string := "AXSeparator"

  /** A decoded attribute value (src/ax/element.rs). */
  datatype AttrValue =
    | StringValue(s: string)
    | BoolValue(b: bool)
    | NumberValue(n: int64)
    | ElementsValue(elems: seq<RawElem>)

  /** What the accessibility API answers about one element. */
  datatype RawElem = RawElem(
    attrs: Result<seq<Option<AttrValue>>, AxErrors.AXError>,     // the batch of the eight menu-item attributes
    rolePeek: Result<seq<Option<AttrValue>>, AxErrors.AXError>,  // the batch holding only `AXRole`
    children: ChildList,                                         // `AXChildren`
    visibleChildren: ChildList,                                  // `AXVisibleChildren`
    pressCode: AxErrors.RawAXError)                              // status of performing `AXPress`

  /** The answer to an element-array attribute: the elements, or the error. */
  datatype ChildList = Listed(elems: seq<RawElem>) | Unavailable(error: AxErrors.AXError)

  /** An application: its menu bar and its extras (status) menu bar. */
  datatype App = App(
    menuBar: Result<RawElem, AxErrors.AXError>,
    extrasMenuBar: Result<RawElem, AxErrors.AXError>)

  /** A node of the menu tree (src/menu/tree.rs:82-106). */
  datatype MenuNode = MenuNode(
    title: string,
    path: string,
    enabled: bool,
    checked: bool,
    shortcut: Option<string>,
    role: string,
    depth: nat,
    children: seq<MenuNode>,
    element: Option<RawElem>,
    isAlternate: bool,
    alternateOf: Option<string>)

  /** src/menu/tree.rs:110-114. */
  datatype TreeOptions = TreeOptions(includeAlternates: bool)

  // ---------------------------------------------------------------------
  // Attribute extraction (src/menu/tree.rs:416-435)

  function ExtractString(attrs: seq<Option<AttrValue>>, idx: nat): (r: Option<string>)
    ensures r.Some? <==> idx < |attrs| && attrs[idx].Some? && attrs[idx].value.StringValue?
    ensures r.Some? ==> attrs[idx] == Some(StringValue(r.value))
  {
    if idx < |attrs| && attrs[idx].Some? && attrs[idx].value.StringValue? then Some(attrs[idx].value.s) else None
  }

  function ExtractBool(attrs: seq<Option<AttrValue>>, idx: nat): (r: Option<bool>)
    ensures r.Some? <==> idx < |attrs| && attrs[idx].Some? && attrs[idx].value.BoolValue?
    ensures r.Some? ==> attrs[idx] == Some(BoolValue(r.value))
  {
    if idx < |attrs| && attrs[idx].Some? && attrs[idx].value.BoolValue? then Some(attrs[idx].value.b) else None
  }

  function ExtractNumber(attrs: seq<Option<AttrValue>>, idx: nat): (r: Option<int64>)
    ensures r.Some? <==> idx < |attrs| && attrs[idx].Some? && attrs[idx].value.NumberValue?
    ensures r.Some? ==> attrs[idx] == Some(NumberValue(r.value))
  {
    if idx < |attrs| && attrs[idx].Some? && attrs[idx].value.NumberValue? then Some(attrs[idx].value.n) else None
  }

  /** The role answered by the one-attribute peek, if any. */
  function PeekRole(c: RawElem): Option<string>
  {
    match c.rolePeek
    case Ok(a) => ExtractString(a, 0)
    case Err(_) => None
  }

  predicate IsGroup(c: RawElem)
  {
    PeekRole(c) == Some(MenuRole)
  }

  /** The path of an item titled `title` under `parentPath`. */
  function ChildPath(parentPath: string, title: string): string
  {
    if parentPath == "" then EscapeTitle(title) else parentPath + PathSep + EscapeTitle(title)
  }

  predicate MayRecurse(depth: nat, maxDepth: Option<nat>)
  {
    maxDepth.None? || depth < maxDepth.value
  }

  /** An item that `collect_children` keeps: titled and not a separator. */
  predicate Kept(n: MenuNode)
  {
    n.title != "" && n.role != SeparatorRole
  }

  // ---------------------------------------------------------------------
  // The walk, as functions

  /** The node `walk_element` builds for `e` (src/menu/tree.rs:184-239). */
  function WalkNode(e: RawElem, parentPath: string, depth: nat, maxDepth: Option<nat>, incl: bool): Result<MenuNode, MenuError>
    decreases e, 2
  {
    match e.attrs
    case Err(err) => Err(AX(err))
    case Ok(attrs) =>
      var title := ExtractString(attrs, TitleIdx).GetOr("");
      var mark := ExtractString(attrs, MarkCharIdx);
      var path := ChildPath(parentPath, title);
      Ok(MenuNode(
        title,
        path,
        ExtractBool(attrs, EnabledIdx).GetOr(true),
        mark.Some? && mark.value != "",
        FormatShortcut(ExtractString(attrs, CmdCharIdx), ExtractNumber(attrs, CmdModifiersIdx)),
        ExtractString(attrs, RoleIdx).GetOr(""),
        depth,
        if MayRecurse(depth, maxDepth) then ChildrenOf(e, path, depth, maxDepth, incl) else [],
        Some(e),
        PrimaryUIElementIdx < |attrs| && attrs[PrimaryUIElementIdx].Some?,
        None))
  }

  /** The child list `collect_children` builds for `e` (src/menu/tree.rs:256-317). */
  function ChildrenOf(e: RawElem, parentPath: string, parentDepth: nat, maxDepth: Option<nat>, incl: bool): seq<MenuNode>
    decreases e, 1
  {
    match e.children
    case Unavailable(_) => []
    case Listed(cs) => CollectFrom(e, 0, parentPath, parentDepth, maxDepth, incl, None)
  }

  /** What one child adds to the list being collected, and the last primary
      title after it. */
  datatype Contribution = Contribution(nodes: seq<MenuNode>, last: Option<string>)

  /** The contribution of child `c` (one iteration of the loop at
      src/menu/tree.rs:272-314), when `last` is the last primary title seen. */
  function Contribute(c: RawElem, parentPath: string, parentDepth: nat, maxDepth: Option<nat>,
                      incl: bool, last: Option<string>): Contribution
    decreases c, 3
  {
    if IsGroup(c) then
      Contribution(ChildrenOf(c, parentPath, parentDepth, maxDepth, incl), None)
    else
      WalkContribution(WalkNode(c, parentPath, parentDepth + 1, maxDepth, incl), incl, last)
  }

  /** The contribution of an ordinary child whose walk gave `w`: a failed walk,
      an untitled item and a separator add nothing; an alternate is named
      after `last` and kept only when asked for; a primary is kept and
      becomes the last primary. */
  function WalkContribution(w: Result<MenuNode, MenuError>, incl: bool, last: Option<string>): Contribution
  {
    match w
    case Err(_) => Contribution([], last)
    case Ok(n) =>
      if !Kept(n) then Contribution([], last)
      else if n.isAlternate then Contribution(if incl then [n.(alternateOf := last)] else [], last)
      else Contribution([n], Some(n.title))
  }

  /** The nodes contributed by the children of `owner` from index `k` on, when
      `last` is the title of the last primary item seen. */
  function CollectFrom(owner: RawElem, k: nat, parentPath: string, parentDepth: nat, maxDepth: Option<nat>,
                       incl: bool, last: Option<string>): seq<MenuNode>
    requires owner.children.Listed? && k <= |owner.children.elems|
    decreases owner, 0, |owner.children.elems| - k
  {
    var cs := owner.children.elems;
    if k == |cs| then []
    else
      assert cs[k] in cs;
      var step := Contribute(cs[k], parentPath, parentDepth, maxDepth, incl, last);
      step.nodes + CollectFrom(owner, k + 1, parentPath, parentDepth, maxDepth, incl, step.last)
  }

  // ---------------------------------------------------------------------
  // The walk, as the Rust code performs it

  method WalkElement(e: RawElem, parentPath: string, depth: nat, maxDepth: Option<nat>, incl: bool)
    returns (r: Result<MenuNode, MenuError>)
    ensures r == WalkNode(e, parentPath, depth, maxDepth, incl)
    decreases e, 2
  {
    if e.attrs.Err? {
      return Err(AX(e.attrs.error));
    }
    var attrs := e.attrs.value;
    var title := ExtractString(attrs, TitleIdx).GetOr("");
    var enabled := ExtractBool(attrs, EnabledIdx).GetOr(true);
    var markChar := ExtractString(attrs, MarkCharIdx);
    var cmdChar := ExtractString(attrs, CmdCharIdx);
    var cmdMods := ExtractNumber(attrs, CmdModifiersIdx);
    var role := ExtractString(attrs, RoleIdx).GetOr("");
    var isAlternate := PrimaryUIElementIdx < |attrs| && attrs[PrimaryUIElementIdx].Some?;
    var checked := markChar.Some? && markChar.value != "";
    var shortcut := FormatShortcut(cmdChar, cmdMods);
    var escaped := EscapeTitle(title);
    var path := if parentPath == "" then escaped else parentPath + PathSep + escaped;
    assert path == ChildPath(parentPath, title);
    var children := [];
    if maxDepth.None? || depth < maxDepth.value {
      children := CollectChildren(e, path, depth, maxDepth, incl);
    }
    assert children == if MayRecurse(depth, maxDepth) then ChildrenOf(e, path, depth, maxDepth, incl) else [];
    r := Ok(MenuNode(title, path, enabled, checked, shortcut, role, depth, children, Some(e), isAlternate, None));
  }

  method CollectChildren(e: RawElem, parentPath: string, parentDepth: nat, maxDepth: Option<nat>, incl: bool)
    returns (childNodes: seq<MenuNode>)
    ensures childNodes == ChildrenOf(e, parentPath, parentDepth, maxDepth, incl)
    decreases e, 1
  {
    if e.children.Unavailable? {
      return [];
    }
    var childElements := e.children.elems;
    ghost var expected := CollectFrom(e, 0, parentPath, parentDepth, maxDepth, incl, None);
    assert ChildrenOf(e, parentPath, parentDepth, maxDepth, incl) == expected;
    childNodes := [];
    var lastPrimaryTitle: Option<string> := None;
    for i := 0 to |childElements|
      invariant childNodes + CollectFrom(e, i, parentPath, parentDepth, maxDepth, incl, lastPrimaryTitle)
             == expected
    {
      var child := childElements[i];
      assert child in childElements;
      var added, next := CollectChild(child, parentPath, parentDepth, maxDepth, incl, lastPrimaryTitle);
      CollectFromStep(e, i, parentPath, parentDepth, maxDepth, incl, lastPrimaryTitle);
      assert CollectFrom(e, i, parentPath, parentDepth, maxDepth, incl, lastPrimaryTitle)
          == added + CollectFrom(e, i + 1, parentPath, parentDepth, maxDepth, incl, next);
      childNodes := childNodes + added;
      lastPrimaryTitle := next;
    }
  }

  lemma CollectFromStep(owner: RawElem, k: nat, parentPath: string, parentDepth: nat, maxDepth: Option<nat>,
                        incl: bool, last: Option<string>)
    requires owner.children.Listed? && k < |owner.children.elems|
    ensures var step := Contribute(owner.children.elems[k], parentPath, parentDepth, maxDepth, incl, last);
            (CollectFrom(owner, k, parentPath, parentDepth, maxDepth, incl, last)
             == step.nodes + CollectFrom(owner, k + 1, parentPath, parentDepth, maxDepth, incl, step.last))
  {
  }

  /** One iteration of the loop of `collect_children` (src/menu/tree.rs:272-314):
      the nodes it pushes and the last primary title after it. */
  method CollectChild(child: RawElem, parentPath: string, parentDepth: nat, maxDepth: Option<nat>, incl: bool,
                      lastPrimaryTitle: Option<string>)
    returns (added: seq<MenuNode>, next: Option<string>)
    ensures Contribution(added, next) == Contribute(child, parentPath, parentDepth, maxDepth, incl, lastPrimaryTitle)
    decreases child, 3
  {
    added, next := [], lastPrimaryTitle;
    var role := PeekRole(child);
    if role == Some(MenuRole) {
      var grandchildren := CollectChildren(child, parentPath, parentDepth, maxDepth, incl);
      added := grandchildren;
      next := None;
    } else {
      var w := WalkElement(child, parentPath, parentDepth + 1, maxDepth, incl);
      if w.Ok? {
        var node := w.value;
        if node.title != "" && node.role != SeparatorRole {
          if node.isAlternate {
            node := node.(alternateOf := lastPrimaryTitle);
            if incl {
              added := [node];
            }
          } else {
            next := Some(node.title);
            added := [node];
          }
        }
      }
    }
  }

  // ---------------------------------------------------------------------
  // Properties of one walked node

  /** How `walk_element` derives each field from the attribute batch. */
  lemma WalkDerivesFields(e: RawElem, parentPath: string, depth: nat, maxDepth: Option<nat>, incl: bool)
    ensures WalkNode(e, parentPath, depth, maxDepth, incl).Err? <==> e.attrs.Err?
    ensures e.attrs.Err? ==> WalkNode(e, parentPath, depth, maxDepth, incl) == Err(AX(e.attrs.error))
    ensures e.attrs.Ok? ==>
      var a := e.attrs.value;
      var n := WalkNode(e, parentPath, depth, maxDepth, incl).value;
      && (TitleIdx < |a| && a[TitleIdx].Some? && a[TitleIdx].value.StringValue? ==> n.title == a[TitleIdx].value.s)
      && (!(TitleIdx < |a| && a[TitleIdx].Some? && a[TitleIdx].value.StringValue?) ==> n.title == "")
      && (!n.enabled <==> EnabledIdx < |a| && a[EnabledIdx] == Some(BoolValue(false)))
      && (n.checked <==> MarkCharIdx < |a| && a[MarkCharIdx].Some? && a[MarkCharIdx].value.StringValue?
                         && |a[MarkCharIdx].value.s| > 0)
      && (n.isAlternate <==> PrimaryUIElementIdx < |a| && a[PrimaryUIElementIdx].Some?)
      && (parentPath == "" ==> n.path == EscapeTitle(n.title))
      && (parentPath != "" ==> n.path == parentPath + "::" + EscapeTitle(n.title))
      && n.depth == depth
      && n.element == Some(e)
      && n.alternateOf.None?
  {
  }

  /** No children are collected at or beyond the depth limit. */
  lemma DepthBound(e: RawElem, parentPath: string, depth: nat, m: nat, incl: bool)
    requires depth >= m
    requires WalkNode(e, parentPath, depth, Some(m), incl).Ok?
    ensures WalkNode(e, parentPath, depth, Some(m), incl).value.children == []
  {
  }

  // ---------------------------------------------------------------------
  // Properties of a collected child list

  /** What every node of a collected child list satisfies. */
  predicate ChildShape(n: MenuNode, parentPath: string, parentDepth: nat, incl: bool)
  {
    && n.depth == parentDepth + 1
    && n.path == ChildPath(parentPath, n.title)
    && n.title != ""
    && n.role != SeparatorRole
    && (n.isAlternate ==> incl)
    && (!n.isAlternate ==> n.alternateOf.None?)
  }

  /** Every collected child, also one spliced in from an `AXMenu` group, has
      the parent's depth plus one and a path extending the parent's; none is
      untitled or a separator; alternates appear only when they are asked for. */
  lemma {:induction false} ChildrenShape(e: RawElem, parentPath: string, parentDepth: nat, maxDepth: Option<nat>, incl: bool)
    ensures forall n <- ChildrenOf(e, parentPath, parentDepth, maxDepth, incl) :: ChildShape(n, parentPath, parentDepth, incl)
    decreases e, 1
  {
    if e.children.Listed? {
      CollectShape(e, 0, parentPath, parentDepth, maxDepth, incl, None);
    }
  }

  lemma {:induction false} CollectShape(owner: RawElem, k: nat, parentPath: string, parentDepth: nat, maxDepth: Option<nat>,
                                        incl: bool, last: Option<string>)
    requires owner.children.Listed? && k <= |owner.children.elems|
    ensures forall n <- CollectFrom(owner, k, parentPath, parentDepth, maxDepth, incl, last) ::
              ChildShape(n, parentPath, parentDepth, incl)
    decreases owner, 0, |owner.children.elems| - k
  {
    var cs := owner.children.elems;
    if k < |cs| {
      var c := cs[k];
      assert c in cs;
      ContributeShape(c, parentPath, parentDepth, maxDepth, incl, last);
      CollectShape(owner, k + 1, parentPath, parentDepth, maxDepth, incl,
                   Contribute(c, parentPath, parentDepth, maxDepth, incl, last).last);
    }
  }

  lemma {:induction false} ContributeShape(c: RawElem, parentPath: string, parentDepth: nat, maxDepth: Option<nat>,
                                           incl: bool, last: Option<string>)
    ensures forall n <- Contribute(c, parentPath, parentDepth, maxDepth, incl, last).nodes ::
              ChildShape(n, parentPath, parentDepth, incl)
    decreases c, 3
  {
    if IsGroup(c) {
      ChildrenShape(c, parentPath, parentDepth, maxDepth, incl);
    } else {
      WalkBasics(c, parentPath, parentDepth + 1, maxDepth, incl);
    }
  }

  /** The structural facts about a walked node that the collection relies on. */
  lemma WalkBasics(e: RawElem, parentPath: string, depth: nat, maxDepth: Option<nat>, incl: bool)
    ensures WalkNode(e, parentPath, depth, maxDepth, incl).Ok? ==>
              var n := WalkNode(e, parentPath, depth, maxDepth, incl).value;
              n.depth == depth && n.path == ChildPath(parentPath, n.title) && n.alternateOf.None?
  {
  }

  /** An ungrouped child adds at most one node; the last primary title moves
      to it when it is a primary, and an alternate names the previous one. */
  lemma ContributeUngrouped(c: RawElem, parentPath: string, parentDepth: nat, maxDepth: Option<nat>,
                            incl: bool, last: Option<string>)
    requires !IsGroup(c)
    ensures var step := Contribute(c, parentPath, parentDepth, maxDepth, incl, last);
            && |step.nodes| <= 1
            && (step.nodes == [] ==> step.last == last)
            && (step.nodes != [] ==> step.last == AfterItem(step.nodes[0], last))
            && (step.nodes != [] && step.nodes[0].isAlternate ==> step.nodes[0].alternateOf == last)
  ensures var step := Contribute(c, parentPath, parentDepth, maxDepth, incl, last);
          var w := WalkNode(c, parentPath, parentDepth + 1, maxDepth, incl);
          step.nodes != [] <==> w.Ok? && Kept(w.value) && (w.value.isAlternate ==> incl)
  {
  }

  /** A failed `children()` fetch gives an empty child list. */
  lemma FailedChildrenFetchIsEmpty(e: RawElem, parentPath: string, parentDepth: nat, maxDepth: Option<nat>, incl: bool)
    requires e.children.Unavailable?
    ensures ChildrenOf(e, parentPath, parentDepth, maxDepth, incl) == []
  {
  }

  /** An `AXMenu` child contributes no node of its own: its collected children
      are spliced in, under the same parent path and depth, and the last
      primary title is forgotten. */
  lemma GroupIsTransparent(owner: RawElem, k: nat, parentPath: string, parentDepth: nat, maxDepth: Option<nat>,
                           incl: bool, last: Option<string>)
    requires owner.children.Listed? && k < |owner.children.elems|
    requires IsGroup(owner.children.elems[k])
    ensures CollectFrom(owner, k, parentPath, parentDepth, maxDepth, incl, last)
         == ChildrenOf(owner.children.elems[k], parentPath, parentDepth, maxDepth, incl)
            + CollectFrom(owner, k + 1, parentPath, parentDepth, maxDepth, incl, None)
  {
  }

  /** A child whose walk fails contributes nothing and changes nothing. */
  lemma FailedChildIsSkipped(owner: RawElem, k: nat, parentPath: string, parentDepth: nat, maxDepth: Option<nat>,
                             incl: bool, last: Option<string>)
    requires owner.children.Listed? && k < |owner.children.elems|
    requires !IsGroup(owner.children.elems[k])
    requires WalkNode(owner.children.elems[k], parentPath, parentDepth + 1, maxDepth, incl).Err?
    ensures CollectFrom(owner, k, parentPath, parentDepth, maxDepth, incl, last)
         == CollectFrom(owner, k + 1, parentPath, parentDepth, maxDepth, incl, last)
  {
  }

  /** A kept primary item is always emitted, ahead of everything collected
      after it, and becomes the item later alternates are attributed to. */
  lemma PrimaryIsEmitted(owner: RawElem, k: nat, parentPath: string, parentDepth: nat, maxDepth: Option<nat>,
                         incl: bool, last: Option<string>)
    requires owner.children.Listed? && k < |owner.children.elems|
    requires !IsGroup(owner.children.elems[k])
    requires WalkNode(owner.children.elems[k], parentPath, parentDepth + 1, maxDepth, incl).Ok?
    requires var n := WalkNode(owner.children.elems[k], parentPath, parentDepth + 1, maxDepth, incl).value;
             Kept(n) && !n.isAlternate
    ensures var n := WalkNode(owner.children.elems[k], parentPath, parentDepth + 1, maxDepth, incl).value;
            (CollectFrom(owner, k, parentPath, parentDepth, maxDepth, incl, last)
             == [n] + CollectFrom(owner, k + 1, parentPath, parentDepth, maxDepth, incl, Some(n.title)))
  {
  }

  /** A kept alternate is emitted in place, named after the last primary
      title, exactly when alternates are asked for; either way the last
      primary title stays as it was. */
  lemma AlternateIsEmitted(owner: RawElem, k: nat, parentPath: string, parentDepth: nat, maxDepth: Option<nat>,
                           incl: bool, last: Option<string>)
    requires owner.children.Listed? && k < |owner.children.elems|
    requires !IsGroup(owner.children.elems[k])
    requires WalkNode(owner.children.elems[k], parentPath, parentDepth + 1, maxDepth, incl).Ok?
    requires var n := WalkNode(owner.children.elems[k], parentPath, parentDepth + 1, maxDepth, incl).value;
             Kept(n) && n.isAlternate
    ensures var n := WalkNode(owner.children.elems[k], parentPath, parentDepth + 1, maxDepth, incl).value;
            (CollectFrom(owner, k, parentPath, parentDepth, maxDepth, incl, last)
             == (if incl then [n.(alternateOf := last)] else [])
                + CollectFrom(owner, k + 1, parentPath, parentDepth, maxDepth, incl, last))
  {
  }

  // ---------------------------------------------------------------------
  // Alternate attribution

  /** The title of the nearest primary item before position `j` of `ns`, or
      `last` when there is none. */
  function LastPrimaryBefore(ns: seq<MenuNode>, j: nat, last: Option<string>): Option<string>
    requires j <= |ns|
  {
    if j == 0 then last
    else if !ns[j - 1].isAlternate then Some(ns[j - 1].title)
    else LastPrimaryBefore(ns, j - 1, last)
  }

  function AfterItem(n: MenuNode, last: Option<string>): Option<string>
  {
    if n.isAlternate then last else Some(n.title)
  }

  lemma {:induction false} LastPrimaryShift(h: MenuNode, rest: seq<MenuNode>, j: nat, last: Option<string>)
    requires j <= |rest|
    ensures LastPrimaryBefore([h] + rest, j + 1, last) == LastPrimaryBefore(rest, j, AfterItem(h, last))
  {
    var ns := [h] + rest;
    if j == 0 {
    } else {
      assert ns[j] == rest[j - 1];
      if rest[j - 1].isAlternate {
        LastPrimaryShift(h, rest, j - 1, last);
      }
    }
  }

  /** Each alternate of `ns` names the nearest primary item before it. */
  predicate AttributedToNearestPrimary(ns: seq<MenuNode>, last: Option<string>)
  {
    forall j :: 0 <= j < |ns| && ns[j].isAlternate ==> ns[j].alternateOf == LastPrimaryBefore(ns, j, last)
  }

  /** The children of `owner` from `k` on contain no `AXMenu` group. */
  predicate GroupFree(owner: RawElem, k: nat)
    requires owner.children.Listed?
  {
    forall i :: k <= i < |owner.children.elems| ==> !IsGroup(owner.children.elems[i])
  }

  /** Every alternate of an ungrouped child list is attributed to the nearest
      primary item emitted before it, or to `last` (`None` at the start of a
      list) when there is none. */
  lemma {:induction false} AlternateAttribution(owner: RawElem, k: nat, parentPath: string, parentDepth: nat,
                                                maxDepth: Option<nat>, last: Option<string>)
    requires owner.children.Listed? && k <= |owner.children.elems|
    requires GroupFree(owner, k)
    ensures AttributedToNearestPrimary(CollectFrom(owner, k, parentPath, parentDepth, maxDepth, true, last), last)
    decreases |owner.children.elems| - k
  {
    var cs := owner.children.elems;
    if k < |cs| {
      var c := cs[k];
      assert !IsGroup(c);
      var step := Contribute(c, parentPath, parentDepth, maxDepth, true, last);
      CollectFromStep(owner, k, parentPath, parentDepth, maxDepth, true, last);
      AlternateAttribution(owner, k + 1, parentPath, parentDepth, maxDepth, step.last);
      ContributeUngrouped(c, parentPath, parentDepth, maxDepth, true, last);
      AttributionStep(step.nodes, CollectFrom(owner, k + 1, parentPath, parentDepth, maxDepth, true, step.last),
                      last, step.last);
    }
  }

  /** Putting at most one item, attributed to `last`, in front of a list
      attributed from the last primary title after that item keeps every
      alternate attributed. */
  lemma AttributionStep(pre: seq<MenuNode>, rest: seq<MenuNode>, last: Option<string>, next: Option<string>)
    requires |pre| <= 1
    requires pre == [] ==> next == last
    requires pre != [] ==> next == AfterItem(pre[0], last) && (pre[0].isAlternate ==> pre[0].alternateOf == last)
    requires AttributedToNearestPrimary(rest, next)
    ensures AttributedToNearestPrimary(pre + rest, last)
  {
    if pre == [] {
      assert pre + rest == rest;
    } else {
      var ns := pre + rest;
      assert pre == [pre[0]];
      assert ns == [pre[0]] + rest;
      forall j | 0 <= j < |ns| && ns[j].isAlternate
        ensures ns[j].alternateOf == LastPrimaryBefore(ns, j, last)
      {
        AttributionAt(pre[0], rest, last, j);
      }
    }
  }

  lemma AttributionAt(h: MenuNode, rest: seq<MenuNode>, last: Option<string>, j: nat)
    requires h.isAlternate ==> h.alternateOf == last
    requires AttributedToNearestPrimary(rest, AfterItem(h, last))
    requires j < |rest| + 1 && ([h] + rest)[j].isAlternate
    ensures ([h] + rest)[j].alternateOf == LastPrimaryBefore([h] + rest, j, last)
  {
    if j > 0 {
      assert ([h] + rest)[j] == rest[j - 1];
      LastPrimaryShift(h, rest, j - 1, last);
    }
  }

  // ---------------------------------------------------------------------
  // Including alternates is a pure filter

  /** Drop alternates from a list, at every level. */
  function RemoveAlternates(ns: seq<MenuNode>): seq<MenuNode>
    decreases ns
  {
    if ns == [] then []
    else (if ns[0].isAlternate then [] else [Prune(ns[0])]) + RemoveAlternates(ns[1..])
  }

  /** A node with the alternates dropped from its descendants. */
  function Prune(n: MenuNode): MenuNode
    decreases n
  {
    n.(children := RemoveAlternates(n.children))
  }

  /** No node of the list, at any level, is an alternate. */
  predicate AlternateFree(ns: seq<MenuNode>)
    decreases ns
  {
    forall i :: 0 <= i < |ns| ==> !ns[i].isAlternate && AlternateFree(ns[i].children)
  }

  /** Removing alternates leaves none, at any level. */
  lemma {:induction false} RemoveAlternatesIsAlternateFree(ns: seq<MenuNode>)
    ensures AlternateFree(RemoveAlternates(ns))
    decreases ns
  {
    if ns != [] {
      var tail := RemoveAlternates(ns[1..]);
      RemoveAlternatesIsAlternateFree(ns[1..]);
      if ns[0].isAlternate {
        assert RemoveAlternates(ns) == tail;
      } else {
        PruneIsAlternateFree(ns[0]);
        var r := RemoveAlternates(ns);
        assert r == [Prune(ns[0])] + tail;
        forall i | 0 <= i < |r|
          ensures !r[i].isAlternate && AlternateFree(r[i].children)
        {
          if i > 0 {
            assert r[i] == tail[i - 1];
          }
        }
      }
    }
  }

  lemma {:induction false} PruneIsAlternateFree(n: MenuNode)
    ensures AlternateFree(Prune(n).children)
    decreases n
  {
    RemoveAlternatesIsAlternateFree(n.children);
  }

  lemma {:induction false} RemoveAlternatesAppend(a: seq<MenuNode>, b: seq<MenuNode>)
    ensures RemoveAlternates(a + b) == RemoveAlternates(a) + RemoveAlternates(b)
  {
    if a == [] {
      assert a + b == b;
    } else {
      var h := if a[0].isAlternate then [] else [Prune(a[0])];
      assert (a + b)[0] == a[0];
      assert (a + b)[1..] == a[1..] + b;
      assert RemoveAlternates(a + b) == h + RemoveAlternates(a[1..] + b);
      RemoveAlternatesAppend(a[1..], b);
      assert RemoveAlternates(a) == h + RemoveAlternates(a[1..]);
    }
  }

  function PruneResult(r: Result<MenuNode, MenuError>): Result<MenuNode, MenuError>
  {
    match r
    case Ok(n) => Ok(Prune(n))
    case Err(e) => Err(e)
  }

  /** Alternates are detected and attributed whatever the option says: the
      option only decides whether they are kept. */
  lemma {:induction false} WalkFilter(e: RawElem, parentPath: string, depth: nat, maxDepth: Option<nat>)
    ensures WalkNode(e, parentPath, depth, maxDepth, false) == PruneResult(WalkNode(e, parentPath, depth, maxDepth, true))
    decreases e, 2
  {
    if e.attrs.Ok? {
      var title := ExtractString(e.attrs.value, TitleIdx).GetOr("");
      if MayRecurse(depth, maxDepth) {
        ChildrenFilter(e, ChildPath(parentPath, title), depth, maxDepth);
      }
      var withAlts := WalkNode(e, parentPath, depth, maxDepth, true).value;
      var without := WalkNode(e, parentPath, depth, maxDepth, false).value;
      assert without.children == RemoveAlternates(withAlts.children);
      assert without == withAlts.(children := without.children);
    }
  }

  lemma {:induction false} ChildrenFilter(e: RawElem, parentPath: string, parentDepth: nat, maxDepth: Option<nat>)
    ensures ChildrenOf(e, parentPath, parentDepth, maxDepth, false)
         == RemoveAlternates(ChildrenOf(e, parentPath, parentDepth, maxDepth, true))
    decreases e, 1
  {
    if e.children.Listed? {
      CollectFilter(e, 0, parentPath, parentDepth, maxDepth, None);
    }
  }

  lemma {:induction false} CollectFilter(owner: RawElem, k: nat, parentPath: string, parentDepth: nat,
                                         maxDepth: Option<nat>, last: Option<string>)
    requires owner.children.Listed? && k <= |owner.children.elems|
    ensures CollectFrom(owner, k, parentPath, parentDepth, maxDepth, false, last)
         == RemoveAlternates(CollectFrom(owner, k, parentPath, parentDepth, maxDepth, true, last))
    decreases owner, 0, |owner.children.elems| - k
  {
    var cs := owner.children.elems;
    if k < |cs| {
      var c := cs[k];
      assert c in cs;
      ContributeFilter(c, parentPath, parentDepth, maxDepth, last);
      var step := Contribute(c, parentPath, parentDepth, maxDepth, true, last);
      CollectFilter(owner, k + 1, parentPath, parentDepth, maxDepth, step.last);
      RemoveAlternatesAppend(step.nodes, CollectFrom(owner, k + 1, parentPath, parentDepth, maxDepth, true, step.last));
    }
  }

  lemma {:induction false} ContributeFilter(c: RawElem, parentPath: string, parentDepth: nat,
                                            maxDepth: Option<nat>, last: Option<string>)
    ensures Contribute(c, parentPath, parentDepth, maxDepth, false, last).last
         == Contribute(c, parentPath, parentDepth, maxDepth, true, last).last
    ensures Contribute(c, parentPath, parentDepth, maxDepth, false, last).nodes
         == RemoveAlternates(Contribute(c, parentPath, parentDepth, maxDepth, true, last).nodes)
    decreases c, 3
  {
    if IsGroup(c) {
      ChildrenFilter(c, parentPath, parentDepth, maxDepth);
    } else {
      WalkFilter(c, parentPath, parentDepth + 1, maxDepth);
      var w := WalkNode(c, parentPath, parentDepth + 1, maxDepth, true);
      if w.Ok? && Kept(w.value) && !w.value.isAlternate {
        assert RemoveAlternates([w.value]) == [Prune(w.value)] + RemoveAlternates([]);
      }
    }
  }

  // ---------------------------------------------------------------------
  // Top-level builds (src/menu/tree.rs:125-181, 358-389)

  /** The top-level items whose walk succeeds, in their original order. */
  function WalkedTopLevel(top: seq<RawElem>, maxDepth: Option<nat>, incl: bool): seq<MenuNode>
  {
    if top == [] then []
    else SlotList(WalkNode(top[0], "", 1, maxDepth, incl)) + WalkedTopLevel(top[1..], maxDepth, incl)
  }

  /** The node of a successful walk as a one-element list; nothing for a failed one. */
  function SlotList(r: Result<MenuNode, MenuError>): seq<MenuNode>
  {
    match r
    case Ok(n) => [n]
    case Err(_) => []
  }

  lemma {:induction false} WalkedTopLevelAppend(a: seq<RawElem>, b: seq<RawElem>, maxDepth: Option<nat>, incl: bool)
    ensures WalkedTopLevel(a + b, maxDepth, incl) == WalkedTopLevel(a, maxDepth, incl) + WalkedTopLevel(b, maxDepth, incl)
  {
    if a == [] {
      assert a + b == b;
    } else {
      assert (a + b)[0] == a[0];
      assert (a + b)[1..] == a[1..] + b;
      WalkedTopLevelAppend(a[1..], b, maxDepth, incl);
    }
  }

  /** One more top-level item adds its node when its walk succeeds. */
  lemma WalkedTopLevelStep(top: seq<RawElem>, i: nat, maxDepth: Option<nat>, incl: bool)
    requires i < |top|
    ensures WalkedTopLevel(top[..i + 1], maxDepth, incl)
         == WalkedTopLevel(top[..i], maxDepth, incl)
            + SlotList(WalkNode(top[i], "", 1, maxDepth, incl))
  {
    assert top[..i + 1] == top[..i] + [top[i]];
    WalkedTopLevelAppend(top[..i], [top[i]], maxDepth, incl);
    assert [top[i]][1..] == [];
  }

  /** A failed top-level item is dropped without disturbing the others. */
  lemma WalkedTopLevelDropsFailure(top: seq<RawElem>, k: nat, maxDepth: Option<nat>, incl: bool)
    requires k < |top| && WalkNode(top[k], "", 1, maxDepth, incl).Err?
    ensures WalkedTopLevel(top, maxDepth, incl) == WalkedTopLevel(top[..k], maxDepth, incl) + WalkedTopLevel(top[k + 1..], maxDepth, incl)
  {
    assert top == top[..k] + ([top[k]] + top[k + 1..]);
    WalkedTopLevelAppend(top[..k], [top[k]] + top[k + 1..], maxDepth, incl);
    WalkedTopLevelAppend([top[k]], top[k + 1..], maxDepth, incl);
  }

  /** When every top-level walk succeeds, the result is their nodes, one per
      item, in order. */
  lemma {:induction false} WalkedTopLevelAllSucceed(top: seq<RawElem>, maxDepth: Option<nat>, incl: bool)
    requires forall i :: 0 <= i < |top| ==> WalkNode(top[i], "", 1, maxDepth, incl).Ok?
    ensures |WalkedTopLevel(top, maxDepth, incl)| == |top|
    ensures forall i :: 0 <= i < |top| ==> WalkedTopLevel(top, maxDepth, incl)[i] == WalkNode(top[i], "", 1, maxDepth, incl).value
  {
    if top != [] {
      var w := WalkNode(top[0], "", 1, maxDepth, incl);
      assert w.Ok?;
      forall i | 0 <= i < |top[1..]| ensures WalkNode(top[1..][i], "", 1, maxDepth, incl).Ok? {
        assert top[1..][i] == top[i + 1];
      }
      WalkedTopLevelAllSucceed(top[1..], maxDepth, incl);
      var rest := WalkedTopLevel(top[1..], maxDepth, incl);
      assert WalkedTopLevel(top, maxDepth, incl) == [w.value] + rest;
      forall i | 0 <= i < |top| ensures WalkedTopLevel(top, maxDepth, incl)[i] == WalkNode(top[i], "", 1, maxDepth, incl).value {
        if i > 0 {
          assert top[1..][i - 1] == top[i];
        }
      }
    }
  }

  /** Every returned node is the successful walk of some top-level item. */
  lemma {:induction false} WalkedTopLevelMember(top: seq<RawElem>, maxDepth: Option<nat>, incl: bool, n: MenuNode)
    requires n in WalkedTopLevel(top, maxDepth, incl)
    ensures exists t :: t in top && WalkNode(t, "", 1, maxDepth, incl) == Ok(n)
  {
    if WalkNode(top[0], "", 1, maxDepth, incl) != Ok(n) {
      WalkedTopLevelMember(top[1..], maxDepth, incl, n);
      var t :| t in top[1..] && WalkNode(t, "", 1, maxDepth, incl) == Ok(n);
      assert t in top;
    }
  }

  /** What `build_tree_with_opts` returns. */
  function TreeOf(app: App, maxDepth: Option<nat>, opts: TreeOptions): Result<seq<MenuNode>, MenuError>
  {
    match app.menuBar
    case Err(e) => Err(AX(e))
    case Ok(bar) =>
      match bar.children
      case Unavailable(e) => Err(AX(e))
      case Listed(top) => Ok(WalkedTopLevel(top, maxDepth, opts.includeAlternates))
  }

  function Slot(r: Result<MenuNode, MenuError>): Option<MenuNode>
  {
    match r
    case Ok(n) => Some(n)
    case Err(_) => None
  }

  /** The Rust code fills one slot per top-level item (in parallel there),
      then keeps the filled slots in order. */
  method BuildTreeWithOpts(app: App, maxDepth: Option<nat>, opts: TreeOptions) returns (r: Result<seq<MenuNode>, MenuError>)
    ensures r == TreeOf(app, maxDepth, opts)
  {
    if app.menuBar.Err? {
      return Err(AX(app.menuBar.error));
    }
    var menubar := app.menuBar.value;
    if menubar.children.Unavailable? {
      return Err(AX(menubar.children.error));
    }
    var topLevel := menubar.children.elems;
    if |topLevel| == 0 {
      return Ok([]);
    }
    var incl := opts.includeAlternates;
    var results := WalkEachTopLevel(topLevel, maxDepth, incl);
    var trees := JoinSlots(results);
    var nodes := FilledSlots(trees);
    ghost var slots := trees[..];
    assert forall j :: 0 <= j < |topLevel| ==> slots[j] == trees[j] == Slot(results[j]);
    FilledSlotsAreWalks(topLevel, slots, maxDepth, incl);
    r := Ok(nodes);
  }

  /** The threads spawned by `build_tree_with_opts` (src/menu/tree.rs:158-167):
      one walk per top-level item, each tagged with its index. */
  method WalkEachTopLevel(topLevel: seq<RawElem>, maxDepth: Option<nat>, incl: bool)
    returns (results: seq<Result<MenuNode, MenuError>>)
    ensures |results| == |topLevel|
    ensures forall j :: 0 <= j < |topLevel| ==> results[j] == WalkNode(topLevel[j], "", 1, maxDepth, incl)
  {
    results := [];
    for i := 0 to |topLevel|
      invariant |results| == i
      invariant forall j :: 0 <= j < i ==> results[j] == WalkNode(topLevel[j], "", 1, maxDepth, incl)
    {
      var node := WalkElement(topLevel[i], "", 1, maxDepth, incl);
      results := results + [node];
    }
  }

  /** Joining the handles in order (src/menu/tree.rs:169-176): slot `i`
      receives the node of the `i`-th walk when that walk succeeded and
      stays empty otherwise. */
  method JoinSlots(results: seq<Result<MenuNode, MenuError>>) returns (trees: array<Option<MenuNode>>)
    ensures fresh(trees) && trees.Length == |results|
    ensures forall j :: 0 <= j < |results| ==> trees[j] == Slot(results[j])
  {
    trees := new Option<MenuNode>[|results|](_ => None);
    for i := 0 to |results|
      invariant forall j :: 0 <= j < i ==> trees[j] == Slot(results[j])
      invariant forall j :: i <= j < trees.Length ==> trees[j] == None
    {
      if results[i].Ok? {
        trees[i] := Some(results[i].value);
      }
    }
  }

  /** The contents of the filled slots, in slot order. */
  function Filled(slots: seq<Option<MenuNode>>): seq<MenuNode>
  {
    if slots == [] then []
    else (if slots[0].Some? then [slots[0].value] else []) + Filled(slots[1..])
  }

  lemma {:induction false} FilledAppend(a: seq<Option<MenuNode>>, b: seq<Option<MenuNode>>)
    ensures Filled(a + b) == Filled(a) + Filled(b)
  {
    if a == [] {
      assert a + b == b;
    } else {
      var h := if a[0].Some? then [a[0].value] else [];
      assert (a + b)[0] == a[0];
      assert (a + b)[1..] == a[1..] + b;
      assert Filled(a + b) == h + Filled(a[1..] + b);
      FilledAppend(a[1..], b);
      assert Filled(a) == h + Filled(a[1..]);
    }
  }

  /** Slots filled from the walks of the top-level items hold exactly the
      items whose walk succeeded. */
  lemma {:induction false} FilledSlotsAreWalks(top: seq<RawElem>, slots: seq<Option<MenuNode>>, maxDepth: Option<nat>, incl: bool)
    requires |slots| == |top|
    requires forall j :: 0 <= j < |top| ==> slots[j] == Slot(WalkNode(top[j], "", 1, maxDepth, incl))
    ensures Filled(slots) == WalkedTopLevel(top, maxDepth, incl)
  {
    if top != [] {
      FilledSlotsAreWalks(top[1..], slots[1..], maxDepth, incl);
    }
  }

  /** `trees.into_iter().flatten().collect()` (src/menu/tree.rs:180). */
  method FilledSlots(trees: array<Option<MenuNode>>) returns (nodes: seq<MenuNode>)
    ensures nodes == Filled(trees[..])
  {
    nodes := [];
    for i := 0 to trees.Length
      invariant nodes == Filled(trees[..i])
    {
      assert trees[..i + 1] == trees[..i] + [trees[i]];
      FilledAppend(trees[..i], [trees[i]]);
      assert [trees[i]][1..] == [];
      if trees[i].Some? {
        nodes := nodes + [trees[i].value];
      }
    }
    assert trees[..trees.Length] == trees[..];
  }

  /** `build_tree`: the build with alternates excluded. */
  method BuildTree(app: App, maxDepth: Option<nat>) returns (r: Result<seq<MenuNode>, MenuError>)
    ensures r == TreeOf(app, maxDepth, TreeOptions(false))
    ensures r.Ok? ==> forall n <- r.value :: AlternateFree(n.children)
  {
    r := BuildTreeWithOpts(app, maxDepth, TreeOptions(false));
    if r.Ok? {
      forall n <- r.value
        ensures AlternateFree(n.children)
      {
        WalkedTopLevelMember(app.menuBar.value.children.elems, maxDepth, false, n);
        var t :| t in app.menuBar.value.children.elems && WalkNode(t, "", 1, maxDepth, false) == Ok(n);
        WalkFilter(t, "", 1, maxDepth);
        PruneIsAlternateFree(WalkNode(t, "", 1, maxDepth, true).value);
      }
    }
  }

  lemma {:induction false} WalkedTopLevelPruned(top: seq<RawElem>, maxDepth: Option<nat>)
    ensures |WalkedTopLevel(top, maxDepth, false)| == |WalkedTopLevel(top, maxDepth, true)|
    ensures forall i :: 0 <= i < |WalkedTopLevel(top, maxDepth, false)| ==>
              WalkedTopLevel(top, maxDepth, false)[i] == Prune(WalkedTopLevel(top, maxDepth, true)[i])
  {
    if top != [] {
      WalkFilter(top[0], "", 1, maxDepth);
      WalkedTopLevelPruned(top[1..], maxDepth);
    }
  }

  /** Excluding alternates changes nothing but the removal of the alternates
      below the top level: the same top-level items, in the same order. */
  lemma BuildTreeIsPrunedFullTree(app: App, maxDepth: Option<nat>)
    ensures TreeOf(app, maxDepth, TreeOptions(false)).Ok? <==> TreeOf(app, maxDepth, TreeOptions(true)).Ok?
    ensures TreeOf(app, maxDepth, TreeOptions(false)).Ok? ==>
      var without := TreeOf(app, maxDepth, TreeOptions(false)).value;
      var with := TreeOf(app, maxDepth, TreeOptions(true)).value;
      |without| == |with| && forall i :: 0 <= i < |without| ==> without[i] == Prune(with[i])
  {
    if app.menuBar.Ok? && app.menuBar.value.children.Listed? {
      WalkedTopLevelPruned(app.menuBar.value.children.elems, maxDepth);
    }
  }

  /** The titled nodes of a list, in order. */
  function Titled(ns: seq<MenuNode>): seq<MenuNode>
  {
    if ns == [] then []
    else (if ns[0].title != "" then [ns[0]] else []) + Titled(ns[1..])
  }

  /** `Titled` keeps exactly the titled members. */
  lemma {:induction false} TitledMembers(ns: seq<MenuNode>)
    ensures forall n <- Titled(ns) :: n.title != "" && n in ns
    ensures forall n <- ns :: n.title != "" ==> n in Titled(ns)
  {
    if ns != [] {
      TitledMembers(ns[1..]);
      assert ns == [ns[0]] + ns[1..];
    }
  }

  lemma {:induction false} TitledAppend(a: seq<MenuNode>, b: seq<MenuNode>)
    ensures Titled(a + b) == Titled(a) + Titled(b)
  {
    if a == [] {
      assert a + b == b;
    } else {
      assert (a + b)[0] == a[0];
      assert (a + b)[1..] == a[1..] + b;
      TitledAppend(a[1..], b);
    }
  }

  /** The items the extras bar is read from: `AXVisibleChildren`, or
      `AXChildren` when that fails. */
  function ExtrasItems(bar: RawElem): ChildList
  {
    if bar.visibleChildren.Listed? then bar.visibleChildren else bar.children
  }

  /** What `build_extras_tree` returns. */
  function ExtrasTreeOf(app: App, maxDepth: Option<nat>, opts: TreeOptions): Result<seq<MenuNode>, MenuError>
  {
    match app.extrasMenuBar
    case Err(e) => Err(AX(e))
    case Ok(bar) =>
      match ExtrasItems(bar)
      case Unavailable(e) => Err(AX(e))
      case Listed(top) => Ok(Titled(WalkedTopLevel(top, maxDepth, opts.includeAlternates)))
  }

  lemma ExtrasStep(top: seq<RawElem>, i: nat, maxDepth: Option<nat>, incl: bool)
    requires i < |top|
    ensures var w := WalkNode(top[i], "", 1, maxDepth, incl);
            (Titled(WalkedTopLevel(top[..i + 1], maxDepth, incl))
             == Titled(WalkedTopLevel(top[..i], maxDepth, incl)) + (if w.Ok? && w.value.title != "" then [w.value] else []))
    ensures WalkNode(top[i], "", 1, maxDepth, incl).Ok? ==> WalkNode(top[i], "", 1, maxDepth, incl).value.depth == 1
  {
    var w := WalkNode(top[i], "", 1, maxDepth, incl);
    var tail := SlotList(w);
    WalkedTopLevelStep(top, i, maxDepth, incl);
    TitledAppend(WalkedTopLevel(top[..i], maxDepth, incl), tail);
    if w.Ok? {
      assert tail[1..] == [];
    }
  }

  method BuildExtrasTree(app: App, maxDepth: Option<nat>, opts: TreeOptions) returns (r: Result<seq<MenuNode>, MenuError>)
    ensures r == ExtrasTreeOf(app, maxDepth, opts)
    ensures r.Ok? ==> forall n <- r.value :: n.title != "" && n.depth == 1
  {
    if app.extrasMenuBar.Err? {
      return Err(AX(app.extrasMenuBar.error));
    }
    var extrasBar := app.extrasMenuBar.value;
    var items := extrasBar.visibleChildren;
    if items.Unavailable? {
      items := extrasBar.children;
    }
    if items.Unavailable? {
      return Err(AX(items.error));
    }
    var topLevel := items.elems;
    if |topLevel| == 0 {
      return Ok([]);
    }
    var incl := opts.includeAlternates;
    var nodes: seq<MenuNode> := [];
    for i := 0 to |topLevel|
      invariant nodes == Titled(WalkedTopLevel(topLevel[..i], maxDepth, incl))
      invariant forall n <- nodes :: n.title != "" && n.depth == 1
    {
      var w := WalkElement(topLevel[i], "", 1, maxDepth, incl);
      ExtrasStep(topLevel, i, maxDepth, incl);
      if w.Ok? && w.value.title != "" {
        nodes := nodes + [w.value];
      }
    }
    assert topLevel[..|topLevel|] == topLevel;
    return Ok(nodes);
  }

  // ---------------------------------------------------------------------
  // Traversal order and size of a built forest

  /** Every node of the forest, each before its descendants, siblings in order. */
  function Preorder(ns: seq<MenuNode>): seq<MenuNode>
    decreases ns
  {
    if ns == [] then [] else [ns[0]] + Preorder(ns[0].children) + Preorder(ns[1..])
  }

  /** The number of nodes of the forest. */
  function ForestSize(ns: seq<MenuNode>): nat
    decreases ns
  {
    if ns == [] then 0 else 1 + ForestSize(ns[0].children) + ForestSize(ns[1..])
  }

  lemma {:induction false} PreorderAppend(a: seq<MenuNode>, b: seq<MenuNode>)
    ensures Preorder(a + b) == Preorder(a) + Preorder(b)
    decreases a
  {
    if a == [] {
      assert a + b == b;
    } else {
      var h := [a[0]] + Preorder(a[0].children);
      assert (a + b)[0] == a[0];
      assert (a + b)[1..] == a[1..] + b;
      assert Preorder(a + b) == h + Preorder(a[1..] + b);
      PreorderAppend(a[1..], b);
      assert Preorder(a) == h + Preorder(a[1..]);
    }
  }

  /** The pre-order lists each node once. */
  lemma {:induction false} PreorderSize(ns: seq<MenuNode>)
    ensures |Preorder(ns)| == ForestSize(ns)
    decreases ns
  {
    if ns != [] {
      PreorderSize(ns[0].children);
      PreorderSize(ns[1..]);
    }
  }

  // ---------------------------------------------------------------------
  // Pressing an item (src/menu/tree.rs:325-338)

  function PressNode(node: MenuNode): (r: Result<(), MenuError>)
    ensures !node.enabled ==> r == Err(ItemDisabled(node.path))
    ensures node.enabled && node.element.None? ==> r == Err(AX(AxErrors.AXError.InvalidElement))
    ensures node.enabled && node.element.Some? ==>
              (r.Ok? <==> node.element.value.pressCode == AxErrors.AXErrorSuccess)
    ensures node.enabled && node.element.Some? && r.Err? ==>
              r.error.AX? && r.error.ax == AxErrors.CheckAxError(node.element.value.pressCode, "AXPress").error
  {
    if !node.enabled then Err(ItemDisabled(node.path))
    else if node.element.None? then Err(AX(AxErrors.AXError.InvalidElement))
    else
      match AxErrors.CheckAxError(node.element.value.pressCode, "AXPress")
      case Ok(_) => Ok(())
      case Err(e) => Err(AX(e))
  }

  /** Pressing a disabled item never consults its element: no action is
      performed, whatever the element would answer. */
  lemma DisabledPressIgnoresElement(node: MenuNode, other: Option<RawElem>)
    requires !node.enabled
    ensures PressNode(node.(element := other)) == PressNode(node)
  {
  }
}
