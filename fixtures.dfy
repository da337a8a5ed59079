/**
 * The menu trees the unit tests of src/menu/flatten.rs and
 * src/menu/resolve.rs are written against.
 */
module Fixtures {
  import opened Wrappers
  import opened Tree

  /** The enabled, unchecked, element-less item the unit tests build their
      trees from. */
  function TestNode(title: string, path: string, children: seq<MenuNode>): MenuNode
  {
    MenuNode(title, path, true, false, None, "AXMenuItem", 1, children, None, false, None)
  }

  /** The tree of src/menu/resolve.rs:170-190. */
  function TestTree(): seq<MenuNode>
  {
    [ TestNode("File", "File", [ TestNode("New", "File::New", []),
                                 TestNode("Save As\U{2026}", "File::Save As\U{2026}", []),
                                 TestNode("Close", "File::Close", []) ]),
      TestNode("Edit", "Edit", [ TestNode("Copy", "Edit::Copy", []),
                                 TestNode("Paste", "Edit::Paste", []) ]) ]
  }
}
