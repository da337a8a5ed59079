/**
 * Flattening a menu tree into a list of items (src/menu/flatten.rs).
 *
 * `flatten_node` appends to a vector it is handed by mutable reference; here
 * that vector is passed in and the extended vector returned.
 */
module Flatten {
  import opened Wrappers
  import opened Tree
  import opened Fixtures

  /** src/menu/flatten.rs:6-27. */
  datatype FlatItem = FlatItem(
    title: string,
    path: string,
    enabled: bool,
    checked: bool,
    shortcut: Option<string>,
    role: string,
    depth: nat,
    childrenCount: nat,
    isAlternate: bool,
    alternateOf: Option<string>)

  /** The item pushed for one node (src/menu/flatten.rs:42-53). */
  function ToFlat(n: MenuNode): FlatItem
  {
    FlatItem(n.title, n.path, n.enabled, n.checked, n.shortcut, n.role, n.depth, |n.children|,
             n.isAlternate, n.alternateOf)
  }

  /** The items `flatten` produces for a forest. */
  function FlattenForest(ns: seq<MenuNode>): seq<FlatItem>
    decreases ns
  {
    if ns == [] then [] else FlattenTree(ns[0]) + FlattenForest(ns[1..])
  }

  /** The items `flatten_node` appends for one node: the node, then its children's. */
  function FlattenTree(n: MenuNode): seq<FlatItem>
    decreases n
  {
    [ToFlat(n)] + FlattenForest(n.children)
  }

  lemma {:induction false} FlattenForestAppend(a: seq<MenuNode>, b: seq<MenuNode>)
    ensures FlattenForest(a + b) == FlattenForest(a) + FlattenForest(b)
  {
    if a == [] {
      assert a + b == b;
    } else {
      var h := FlattenTree(a[0]);
      assert (a + b)[0] == a[0];
      assert (a + b)[1..] == a[1..] + b;
      assert FlattenForest(a + b) == h + FlattenForest(a[1..] + b);
      FlattenForestAppend(a[1..], b);
      assert FlattenForest(a) == h + FlattenForest(a[1..]);
    }
  }

  /** The items of a prefix grow by the items of the next tree. */
  lemma FlattenSnoc(ns: seq<MenuNode>, i: nat)
    requires i < |ns|
    ensures FlattenForest(ns[..i + 1]) == FlattenForest(ns[..i]) + FlattenTree(ns[i])
  {
    assert ns[..i + 1] == ns[..i] + [ns[i]];
    FlattenForestAppend(ns[..i], [ns[i]]);
    assert FlattenForest([ns[i]]) == FlattenTree(ns[i]) + FlattenForest([]);
  }

  method FlattenNode(node: MenuNode, out: seq<FlatItem>) returns (result: seq<FlatItem>)
    ensures result == out + FlattenTree(node)
    decreases node
  {
    result := out + [ToFlat(node)];
    for i := 0 to |node.children|
      invariant result == out + [ToFlat(node)] + FlattenForest(node.children[..i])
    {
      var child := node.children[i];
      assert child in node.children;
      FlattenSnoc(node.children, i);
      result := FlattenNode(child, result);
    }
    assert node.children[..|node.children|] == node.children;
  }

  method Flatten(nodes: seq<MenuNode>) returns (result: seq<FlatItem>)
    ensures result == FlattenForest(nodes)
  {
    result := [];
    for i := 0 to |nodes|
      invariant result == FlattenForest(nodes[..i])
    {
      FlattenSnoc(nodes, i);
      result := FlattenNode(nodes[i], result);
    }
    assert nodes[..|nodes|] == nodes;
  }

  /** `f` lists the flat items of the nodes `p`, position by position. */
  predicate FlatOf(f: seq<FlatItem>, p: seq<MenuNode>)
  {
    |f| == |p| && forall i :: 0 <= i < |p| ==> f[i] == ToFlat(p[i])
  }

  lemma FlatOfConcat(f1: seq<FlatItem>, p1: seq<MenuNode>, f2: seq<FlatItem>, p2: seq<MenuNode>)
    requires FlatOf(f1, p1) && FlatOf(f2, p2)
    ensures FlatOf(f1 + f2, p1 + p2)
  {
    forall i | 0 <= i < |p1 + p2| ensures (f1 + f2)[i] == ToFlat((p1 + p2)[i]) {
      if i >= |p1| {
        assert (f1 + f2)[i] == f2[i - |p1|] && (p1 + p2)[i] == p2[i - |p1|];
      }
    }
  }

  lemma {:induction false} FlattenFlatOf(ns: seq<MenuNode>)
    ensures FlatOf(FlattenForest(ns), Preorder(ns))
    decreases ns
  {
    if ns != [] {
      FlattenFlatOf(ns[0].children);
      FlattenFlatOf(ns[1..]);
      var fc := FlattenForest(ns[0].children);
      var pc := Preorder(ns[0].children);
      assert FlatOf([ToFlat(ns[0])], [ns[0]]);
      FlatOfConcat([ToFlat(ns[0])], [ns[0]], fc, pc);
      FlatOfConcat([ToFlat(ns[0])] + fc, [ns[0]] + pc, FlattenForest(ns[1..]), Preorder(ns[1..]));
      assert FlattenForest(ns) == [ToFlat(ns[0])] + fc + FlattenForest(ns[1..]);
      assert Preorder(ns) == [ns[0]] + pc + Preorder(ns[1..]);
    }
  }

  /** The flattened list describes the forest's nodes one by one, in pre-order:
      the i-th item copies the i-th node's fields and counts its direct
      children. */
  lemma FlattenIsPreorder(ns: seq<MenuNode>)
    ensures |FlattenForest(ns)| == |Preorder(ns)|
    ensures forall i :: 0 <= i < |Preorder(ns)| ==> FlattenForest(ns)[i] == ToFlat(Preorder(ns)[i])
  {
    FlattenFlatOf(ns);
  }

  /** The flattened list has one item per node of the forest. */
  lemma FlattenCount(ns: seq<MenuNode>)
    ensures |FlattenForest(ns)| == ForestSize(ns)
  {
    FlattenIsPreorder(ns);
    PreorderSize(ns);
  }

  /** Each item's fields are those of its node, and its `childrenCount` is
      the number of that node's direct children. */
  lemma FlattenCopiesFields(ns: seq<MenuNode>, i: nat)
    requires i < ForestSize(ns)
    ensures i < |FlattenForest(ns)| && i < |Preorder(ns)|
    ensures var item := FlattenForest(ns)[i];
            var n := Preorder(ns)[i];
            && item.title == n.title && item.path == n.path && item.enabled == n.enabled
            && item.checked == n.checked && item.shortcut == n.shortcut && item.role == n.role
            && item.depth == n.depth && item.childrenCount == |n.children|
            && item.isAlternate == n.isAlternate && item.alternateOf == n.alternateOf
  {
    FlattenIsPreorder(ns);
    PreorderSize(ns);
  }

  /** src/menu/flatten.rs:80-89: two childless roots give two items, in order. */
  lemma FlattenSingleLevelExample()
    ensures var flat := FlattenForest([TestNode("File", "File", []), TestNode("Edit", "Edit", [])]);
            |flat| == 2 && flat[0].path == "File" && flat[1].path == "Edit"
  {
    var nodes := [TestNode("File", "File", []), TestNode("Edit", "Edit", [])];
    assert nodes[1..][1..] == [];
  }

  /** src/menu/flatten.rs:91-101: a parent comes before its child and counts it. */
  lemma FlattenNestedExample()
    ensures var flat := FlattenForest([TestNode("File", "File", [TestNode("New", "File::New", [])])]);
            && |flat| == 2 && flat[0].path == "File" && flat[1].path == "File::New"
            && flat[0].childrenCount == 1 && flat[1].childrenCount == 0
  {
    var child := TestNode("New", "File::New", []);
    var parent := TestNode("File", "File", [child]);
    assert [parent][1..] == [];
    assert [child][1..] == [];
    assert FlattenTree(child) == [ToFlat(child)];
    assert FlattenTree(parent) == [ToFlat(parent), ToFlat(child)];
  }
}
