# menucli menu core in Dafny

menucli is a macOS command-line tool that reads an application's menu bar
through the Accessibility (AX) API. It can list, search, click and toggle
menu items by path. This project models its menu domain and proves
properties of that model:

- the `::` path codec: `escape_title`, `split_path` and `unescape_segment`;
- the tree builder: `walk_element`, `collect_children`, `build_tree`,
  `build_tree_with_opts`, `build_extras_tree` and `press_node`;
- path resolution (`resolve`): exact path first, then a unique leaf title,
  then fuzzy matching with a 2x ratio gate;
- flattening of a tree into items in pre-order;
- search in its three modes: empty query, exact substring and fuzzy;
- keyboard shortcut formatting from the AX modifier mask;
- the error tables: raw AX status code to typed error, error to exit code,
  and error to JSON envelope.

The live accessibility hierarchy is an input value. A `RawElem` records what
the API would answer about one element:

- the eight-slot attribute batch, or an `AXError`;
- the one-attribute role peek;
- `AXChildren` and `AXVisibleChildren`;
- the status code of pressing the element.

The fuzzy matcher is a `Scorer` parameter, a function from a haystack, a
pattern and a case mode to an optional score.

Modules follow the source files:

| file | module | models |
|---|---|---|
| `wrappers.dfy` | `Wrappers` | `Option` and `Result` |
| `strings.dfy` | `Strings` | `contains`, `replace`, `trim`, lower-casing |
| `ax_errors.dfy` | `AxErrors` | src/ax/errors.rs |
| `menu_errors.dfy` | `MenuErrors` | src/menu/errors.rs |
| `types.dfy` | `Types` | src/types.rs |
| `shortcut.dfy` | `Shortcut` | src/menu/shortcut.rs |
| `path_codec.dfy` | `PathCodec` | lines 16-78 of src/menu/tree.rs |
| `tree.dfy` | `Tree` | the rest of src/menu/tree.rs |
| `flatten.dfy` | `Flatten` | src/menu/flatten.rs |
| `fixtures.dfy` | `Fixtures` | the trees the unit tests of src/menu/flatten.rs and src/menu/resolve.rs use |
| `scoring.dfy` | `Scoring` | the stable descending `sort_by` shared by resolve and search |
| `resolve.dfy` | `Resolve` | src/menu/resolve.rs |
| `search.dfy` | `Search` | src/menu/search.rs |

Code that loops in the source is an imperative method. Each such method is
proved equal to a specification function, and the properties are proved
about that function. This covers:

- `SplitPath`;
- `CollectChildren` and `CollectChild`;
- `BuildTreeWithOpts`, built from `WalkEachTopLevel`, `JoinSlots` and `FilledSlots`;
- `BuildExtrasTree`;
- `ResolveByExactPath`, `CollectLeaves`, `CollectAll` and `ResolveFuzzy`;
- `FlattenNode` and `Flatten`;
- `FuzzySearch`, which uses the in-place insertion sort `SortByScoreDesc` over an array.

Pure code is made of functions.

Path round-trip: the doc comment at src/menu/tree.rs:20-21 calls
round-tripping lossless. `PathRoundTrip` proves it under a sufficient
condition:

- the list of titles is non-empty;
- no title except the last ends with `:` or `\`.

Empty titles and titles that start with `:` are allowed, and the last title
may end with anything (`LastTitleIsUnrestricted`).
`TrailingColonBreaksRoundTrip` and `TrailingBackslashBreaksRoundTrip` show
that a title followed by another one does break the round-trip when it ends
with `:` or `\`.

## Model

| member | source | states |
|---|---|---|
| AxErrors.CheckAxError | src/ax/errors.rs:52-73 | `Ok` iff the code is success. InvalidUIElement gives `InvalidElement` and CannotComplete gives `Timeout`, each iff. AttributeUnsupported and ActionUnsupported give their variant, carrying the context verbatim. Every other failure code gives `ApiFailure` with that code and context. The result is never `NotTrusted` or `AppNotFound`. |
| AxErrors.CheckAxErrorInjective | src/ax/errors.rs:58-72 | Two codes that map to the same result, under the same context, are equal. |
| MenuErrors.ExitCode | src/menu/errors.rs:60-70 | The exit code is 1, 3 or 4, never 0. It is 3 iff `AccessDenied` or `AX(NotTrusted)`. It is 4 iff `AppNotFound`, `ItemNotFound` or `AmbiguousMatch`. It is 1 otherwise. |
| MenuErrors.WrappedAppNotFoundExitsOne | src/menu/errors.rs:63-68 | `AX(AppNotFound)` exits with 1, while the menu layer's own `AppNotFound` exits with 4. |
| Types.FromMenuError | src/types.rs:118-141 | `ok` is false and the message is the one given. `candidates` is present iff the error is `AmbiguousMatch`, and then equals its candidate list. Every `AX(_)` has code `ax_error`. |
| Types.CodeIdentifiesKind | src/types.rs:120-132 | Two errors get the same code iff they are the same variant, counting every `AX(_)` as one variant. |
| Types.AxErrorCodeIgnoresInner | src/types.rs:131 | The error detail of `AX(a)` does not depend on `a`. |
| Types.LookupCodesExitFour | src/types.rs:122-128 | The code is `app_not_found`, `item_not_found` or `ambiguous_match` iff the exit code is 4. |
| Shortcut.Glyphs | src/menu/shortcut.rs:44-55 | At most four glyphs, distinct and in the order ⌃ ⌥ ⇧ ⌘. Each glyph is present iff its flag is set. |
| Shortcut.FormatShortcut | src/menu/shortcut.rs:30-59 | `None` iff the key character is absent or blank after trimming. Otherwise the result ends with the trimmed key and has at most four glyphs before it, in the fixed order. ⌃ appears iff bit 0x4 is set, ⌥ iff 0x2, ⇧ iff 0x1, and ⌘ iff 0x8 is clear. An absent mask counts as 0. |
| Shortcut.OnlyLowBitsMatter | src/menu/shortcut.rs:39-42 | Two masks that agree on their four low bits render alike. |
| Shortcut.AbsentModifiersAreZero | src/menu/shortcut.rs:36 | An absent mask renders like the mask 0. |
| Shortcut.CommandOnlyExample | src/menu/shortcut.rs:65-68 | `("S", 0)` renders as `⌘S`. |
| Shortcut.ShiftCommandExample | src/menu/shortcut.rs:70-73 | `("S", 1)` renders as `⇧⌘S`. |
| Shortcut.OptionCommandExample | src/menu/shortcut.rs:75-78 | `("W", 2)` renders as `⌥⌘W`. |
| Shortcut.ControlOnlyExample | src/menu/shortcut.rs:80-86 | `("F", 0x4 \| 0x8)` renders as `⌃F`. |
| Shortcut.NoCharExamples | src/menu/shortcut.rs:88-92 | An absent or empty key character gives `None`. |
| Shortcut.ShiftOptionCommandExample | src/menu/shortcut.rs:27 | The mask 3 renders `S` as `⌥⇧⌘S`. The doc comment says `⌥⌘S`. |
| PathCodec.EscapeTitle | src/menu/tree.rs:29-35 | A title without `::` is returned unchanged. |
| PathCodec.UnescapeSegment | src/menu/tree.rs:72-78 | A segment without `\::` is returned unchanged. |
| PathCodec.EscapeIsReplace | src/menu/tree.rs:29-35 | Escaping always equals replacing every `::` by `\::`. The borrowed case is only an optimisation. |
| PathCodec.UnescapeInvertsReplace | src/menu/tree.rs:72-78 | Replacing `\::` by `::` undoes replacing `::` by `\::`, for every text. |
| PathCodec.EscapeRoundTrip | src/menu/tree.rs:20-35 | `unescape_segment(escape_title(t)) == t` for every title. |
| PathCodec.SplitPath | src/menu/tree.rs:42-66 | The scanning loop returns the specified split. It returns at least one segment. Joining the segments with `::` gives back the input. No segment but the last ends with a backslash. |
| PathCodec.SplitJoin | src/menu/tree.rs:42-66 | From any scanner state, joining the remaining segments with `::` gives the unscanned text. |
| PathCodec.SplitNeverAfterBackslash | src/menu/tree.rs:50-55 | A `::` preceded by a backslash is never a split point. |
| PathCodec.SplitNonEmpty | src/menu/tree.rs:64 | `split_path` never returns an empty list. |
| PathCodec.ScanEscapedList | src/menu/tree.rs:42-66 | Splitting a joined list of escaped titles, none but the last ending in `:` or `\`, gives back the escaped titles. |
| PathCodec.PathRoundTrip | src/menu/tree.rs:212-217 | For a non-empty list of titles none of which except the last ends with `:` or `\`, take the joined escaped titles, split them and unescape each segment: the result is the list. |
| PathCodec.TrailingColonBreaksRoundTrip | src/menu/tree.rs:50-59 | The titles `["a:", "b"]` come back from splitting as `["a", ":b"]`. |
| PathCodec.TrailingBackslashBreaksRoundTrip | src/menu/tree.rs:52-55 | The titles `["a\", "b"]` come back from splitting as the single segment `a\::b`. |
| PathCodec.LastTitleIsUnrestricted | src/menu/tree.rs:42-66 | The titles `["a", "b:"]` and `["a\"]` come back unchanged from join, split and unescape. |
| Tree.ExtractString | src/menu/tree.rs:416-421 | `Some` iff the slot exists, is set and holds a string. The value is that string. |
| Tree.ExtractBool | src/menu/tree.rs:423-428 | `Some` iff the slot exists, is set and holds a boolean. The value is that boolean. |
| Tree.ExtractNumber | src/menu/tree.rs:430-435 | `Some` iff the slot exists, is set and holds a number. The value is that number. |
| Tree.WalkElement | src/menu/tree.rs:184-239 | The method returns the node that `WalkNode` specifies. |
| Tree.WalkDerivesFields | src/menu/tree.rs:192-237 | The walk fails iff the batch fetch fails, and then returns that error. `title` defaults to `""`. `enabled` is false only for a stored `false`. Each of these holds iff the condition: `checked` when the mark char is a non-empty string, and `is_alternate` when slot 7 is set. `path` is the escaped title under an empty parent, else `parent::escaped`. `depth` is the given depth, the element is kept, and `alternate_of` is `None`. |
| Tree.DepthBound | src/menu/tree.rs:219-224 | At or beyond `max_depth` a node has no children. |
| Tree.CollectChildren | src/menu/tree.rs:256-317 | The loop returns the child list that `ChildrenOf` specifies. |
| Tree.CollectChild | src/menu/tree.rs:272-314 | One loop iteration pushes, and updates the last primary title, exactly as `Contribute` says. |
| Tree.ChildrenShape | src/menu/tree.rs:263-311 | Every collected child, including one spliced from an `AXMenu` group, has these properties. Its depth is the parent's plus one. Its path is the parent path joined with its escaped title. Its title is non-empty and its role is not `AXSeparator`. It is an alternate only when alternates are asked for. A primary has no `alternate_of`. |
| Tree.ContributeUngrouped | src/menu/tree.rs:292-311 | A non-group child adds at most one node. The last primary title moves only to a kept primary. An added alternate names the previous last primary title. A node is added iff the walk succeeds, the node is titled and not a separator, and it is a primary or alternates are asked for. |
| Tree.FailedChildrenFetchIsEmpty | src/menu/tree.rs:263-266 | A failed `children()` fetch gives an empty list. |
| Tree.GroupIsTransparent | src/menu/tree.rs:279-291 | An `AXMenu` child adds no node of its own. Its collected children are spliced in with the same parent path and depth. The last primary title is reset. |
| Tree.FailedChildIsSkipped | src/menu/tree.rs:292-298 | A child whose walk fails adds nothing and changes nothing. |
| Tree.PrimaryIsEmitted | src/menu/tree.rs:308-311 | A kept primary is emitted in place and becomes the last primary title. |
| Tree.AlternateIsEmitted | src/menu/tree.rs:300-306 | A kept alternate is emitted in place, named after the last primary title, iff alternates are asked for. The last primary title is unchanged either way. |
| Tree.AlternateAttribution | src/menu/tree.rs:269-311 | In a child list without `AXMenu` groups, each alternate's `alternate_of` is the title of the nearest primary before it, or `None` when there is none. |
| Tree.RemoveAlternatesIsAlternateFree | src/menu/tree.rs:304-306 | Removing alternates leaves none, at any level. |
| Tree.WalkFilter | src/menu/tree.rs:301-311 | Alternates are detected and attributed either way. Walking with alternates excluded equals walking with them included and then dropping them, at every level. |
| Tree.ChildrenFilter | src/menu/tree.rs:301-311 | The same as `WalkFilter`, for a collected child list. |
| Tree.WalkEachTopLevel | src/menu/tree.rs:158-168 | One walk result per top-level item, in index order: result `j` is the walk of item `j`. |
| Tree.JoinSlots | src/menu/tree.rs:169-177 | The slot array has one slot per result. Slot `j` holds the node of walk `j` if that walk succeeded, and is empty otherwise. |
| Tree.FilledSlots | src/menu/tree.rs:180 | Returns the contents of the filled slots, in slot order. |
| Tree.FilledSlotsAreWalks | src/menu/tree.rs:156-180 | Slots filled from the walks hold exactly the walks that succeeded, in order. |
| Tree.WalkedTopLevelDropsFailure | src/menu/tree.rs:171-176 | A failed top-level item is dropped without disturbing the others. |
| Tree.WalkedTopLevelAllSucceed | src/menu/tree.rs:156-180 | If every top-level walk succeeds, the result has one node per item, in order. |
| Tree.WalkedTopLevelMember | src/menu/tree.rs:171-180 | Every returned node is the successful walk of some top-level item. |
| Tree.BuildTreeWithOpts | src/menu/tree.rs:140-181 | A failing menu bar or top-level fetch returns its `AX` error. Otherwise the result is the top-level items whose walk succeeded, in their original order. An empty top level gives an empty result. |
| Tree.BuildTree | src/menu/tree.rs:125-133 | The result is the build with alternates excluded. No node below the top level of the result is an alternate. |
| Tree.WalkedTopLevelPruned | src/menu/tree.rs:153-180 | The top-level walks without alternates are, item by item, the walks with alternates with the alternates pruned. |
| Tree.BuildTreeIsPrunedFullTree | src/menu/tree.rs:125-181 | The build without alternates succeeds iff the build with them does. It then has the same top-level items, each with its alternates removed. |
| Tree.TitledMembers | src/menu/tree.rs:380-382 | The titled filter keeps exactly the list's titled nodes. |
| Tree.BuildExtrasTree | src/menu/tree.rs:358-389 | Items come from `AXVisibleChildren`, falling back to `AXChildren`. Fetch errors become `AX` errors. The result is the successfully walked top-level items with a non-empty title, in order, each at depth 1. |
| Tree.PressNode | src/menu/tree.rs:325-338 | A disabled node gives `ItemDisabled(path)`. An enabled node without an element gives `AX(InvalidElement)`. Otherwise the result is `Ok` iff the press returns success, and is else the mapped AX error. |
| Tree.DisabledPressIgnoresElement | src/menu/tree.rs:326-330 | Pressing a disabled node never consults its element. |
| Tree.PreorderSize | src/menu/resolve.rs:104-110 | The pre-order lists as many nodes as the forest holds. |
| Flatten.FlattenNode | src/menu/flatten.rs:41-57 | Appends the node's item, then the items of its children in order. |
| Flatten.Flatten | src/menu/flatten.rs:33-39 | The loop returns the items that `FlattenForest` specifies. |
| Flatten.FlattenForestAppend | src/menu/flatten.rs:34-38 | Flattening a concatenation is the concatenation of the flattenings, so roots keep their order. |
| Flatten.FlattenIsPreorder | src/menu/flatten.rs:29-57 | The i-th item is the projection of the i-th node in pre-order, for every position. |
| Flatten.FlattenCount | src/menu/flatten.rs:33-57 | There is one item per node of the forest. |
| Flatten.FlattenCopiesFields | src/menu/flatten.rs:42-53 | Each item copies its node's title, path, enabled, checked, shortcut, role, depth, is_alternate and alternate_of. Its `children_count` is the node's number of direct children. |
| Flatten.FlattenSingleLevelExample | src/menu/flatten.rs:79-89 | Two childless roots give two items, in order. |
| Flatten.FlattenNestedExample | src/menu/flatten.rs:91-101 | A parent comes before its child; the parent counts 1 child and the child 0. |
| Scoring.InsertDescSorted | src/menu/search.rs:109 | Inserting into a list sorted by descending score keeps it sorted. |
| Scoring.InsertDescPermutes | src/menu/search.rs:109 | Insertion adds exactly the one element, as a multiset. |
| Scoring.InsertDescStable | src/menu/search.rs:109 | Insertion puts the element after every equal-scored element. |
| Scoring.SortDescSorted | src/menu/search.rs:109 | The sort orders by descending score and is a permutation of its input. |
| Scoring.SortDescStable | src/menu/search.rs:109 | The sort is stable: equal scores keep their input order. |
| Scoring.WithScoreOfPrefix | src/menu/search.rs:110 | Truncating a sequence leaves, for every score, a prefix of its elements with that score. |
| Scoring.InsertInto | src/menu/search.rs:109 | One insertion pass on the array leaves the prefix equal to the inserted prefix and the suffix untouched. |
| Scoring.SortByScoreDesc | src/menu/resolve.rs:128 | The in-place sort leaves the array equal to the stable descending sort of its old contents. |
| Resolve.FindFirst | src/menu/resolve.rs:72 | Returns the index of the first node whose lowered title matches. It is `None` iff no node matches. |
| Resolve.ResolveByExactPath | src/menu/resolve.rs:64-89 | The loop returns what the level-by-level walk `ExactPathOutcome` specifies. |
| Resolve.DescendFinds | src/menu/resolve.rs:69-84 | A successful walk ends on a node of the forest whose title matches the last segment. |
| Resolve.ExactPathResult | src/menu/resolve.rs:64-89 | The exact-path strategy either fails with `ItemNotFound(path)`, or returns a node of the tree whose title matches the last unescaped segment. |
| Resolve.TwoLevelPath | src/menu/resolve.rs:64-89 | For `a::b` with separator-free titles, the result is the first child matching `b` of the first node matching `a`, or not found. |
| Resolve.LeavesArePreorderLeaves | src/menu/resolve.rs:91-102 | The leaves are the childless nodes of the pre-order, in that order. |
| Resolve.CollectLeaves | src/menu/resolve.rs:92-102 | The recursive loop returns the leaves that `Leaves` specifies. |
| Resolve.CollectAll | src/menu/resolve.rs:105-110 | Extends `out` with every node in pre-order. |
| Resolve.ScoreAllMembers | src/menu/resolve.rs:119-126 | Every scored entry is a node with the score the matcher gave its path. Every node the matcher scores has its entry. |
| Resolve.ScoreAllEmpty | src/menu/resolve.rs:119-126 | Nothing is scored iff the matcher rejects every path. |
| Resolve.ResolveFuzzy | src/menu/resolve.rs:112-148 | The method returns what `FuzzyOutcome` specifies. |
| Resolve.RankedFacts | src/menu/resolve.rs:128 | The ranking is sorted by descending score and holds exactly the scored nodes. |
| Resolve.FuzzyNotFound | src/menu/resolve.rs:130-133 | Fuzzy resolution gives `ItemNotFound` iff the matcher rejects every node's path. |
| Resolve.FuzzyResolvedIsBest | src/menu/resolve.rs:134-139 | A fuzzy resolution returns a scored node of the tree scoring at least as much as any other. With two or more scored nodes, best >= 2 * max(second, 1). |
| Resolve.FuzzyAmbiguity | src/menu/resolve.rs:140-145 | An ambiguous fuzzy match has at least two ranked nodes and fails the ratio test. It lists the paths of the first min(5, n) ranked nodes, in rank order. |
| Resolve.FuzzyCandidatesScored | src/menu/resolve.rs:141-144 | Every candidate is the path of a node of the tree that the matcher scored. |
| Resolve.FuzzyOutcomeResult | src/menu/resolve.rs:112-148 | Fuzzy resolution returns a node of the tree, or `ItemNotFound(query)`, or an ambiguity with at least two candidates. |
| Resolve.Resolve | src/menu/resolve.rs:34-59 | The method returns what the cascade `ResolveOutcome` specifies. |
| Resolve.LeafMatchesMembers | src/menu/resolve.rs:41-44 | The matching leaves are those whose lowered title equals the lowered query. |
| Resolve.SeparatorMeansExactPath | src/menu/resolve.rs:36-38 | A query with `::` is resolved by exact path alone. The result does not depend on the fuzzy matcher, and a failure is `ItemNotFound(query)`. |
| Resolve.UniqueLeafWins | src/menu/resolve.rs:41-47 | Without `::`, exactly one childless node whose title matches the query is the result, whatever the matcher says. |
| Resolve.SameTitledLeavesAreAmbiguous | src/menu/resolve.rs:48-53 | Without `::`, two or more matching leaves give `AmbiguousMatch` with their paths in pre-order. |
| Resolve.LeafOutcomeResult | src/menu/resolve.rs:46-53 | A leaf match is a node of the tree, and one candidate path is listed per match. |
| Resolve.ResolveResult | src/menu/resolve.rs:34-59 | Under every strategy, a resolved node is a node of the tree. A failure is `ItemNotFound(query)`, or `AmbiguousMatch(query, cs)` with at least two candidates. |
| Resolve.TwoSegments | src/menu/resolve.rs:65-71 | `a::b`, where neither title contains `::` and `a` does not end with `:` or `\`, splits and unescapes to `[a, b]`. |
| Resolve.ExactPathExample | src/menu/resolve.rs:192-197 | On the test tree, `File::Save As…` resolves to the node with that path. |
| Resolve.UniqueTitleExample | src/menu/resolve.rs:199-204 | On the test tree, `Paste` resolves to `Edit::Paste`. |
| Resolve.AmbiguousTitleExample | src/menu/resolve.rs:206-215 | Two `Save` leaves make `save` ambiguous, listing `File::Save` then `Edit::Save`. |
| Resolve.NotFoundExample | src/menu/resolve.rs:217-222 | `File::NonExistent` is `ItemNotFound`. |
| Search.ExactMatchesMembers | src/menu/search.rs:66-74 | An item passes the exact filter iff it is an input item whose path contains the query. The comparison lower-cases both sides unless it is case-sensitive. |
| Search.ExactSearchFindsMatches | src/menu/search.rs:65-82 | At most `limit` results, each unscored and a matching input item. When fewer than `limit` are returned, every matching item is among them. |
| Search.ExactMatchesInOrder | src/menu/search.rs:66-75 | The exact filter keeps the input items at strictly increasing positions, and those positions are exactly the ones whose item matches. |
| Search.ExactSearchKeepsOrder | src/menu/search.rs:65-82 | The results are the first `limit` matching items in input order. Result `i` is the item at the `i`-th matching position. A matching position not reported comes after every reported one, and then `limit` results were returned. |
| Search.CaseSensitiveIsStricter | src/menu/search.rs:68-73 | A case-sensitive match is also a case-insensitive one. |
| Search.CaseInsensitiveQuery | src/menu/search.rs:72 | A case-insensitive exact search depends only on the lowered query. |
| Search.FuzzySearch | src/menu/search.rs:84-112 | The method (score, sort in place, truncate) returns what `FuzzyResults` specifies. |
| Search.ScoreItemsMembers | src/menu/search.rs:94-106 | Every scored entry is an input item with the matcher's score. Every item the matcher scores is present. |
| Search.ScoreItemsInOrder | src/menu/search.rs:94-106 | The scored entries are the input items at strictly increasing positions, each with its score, and those positions are exactly the ones the matcher scores. |
| Search.FuzzyResultsRanked | src/menu/search.rs:94-111 | At most `limit` results, sorted by descending score. Each is an input item with the score the matcher gave it under the selected case mode. |
| Search.FuzzyKeepsBest | src/menu/search.rs:108-110 | A scored item is in the results, unless `limit` results were returned and each scores at least as much as it. |
| Search.FuzzyResultsStable | src/menu/search.rs:108-110 | For every score, the results with that score are a prefix of the scored items with that score, in input order: ties keep input order. |
| Search.Search | src/menu/search.rs:46-63 | The method returns what `SearchOutcome` specifies. |
| Search.EmptyQueryListsFirstItems | src/menu/search.rs:47-56 | An empty query returns the first min(limit, n) items, in order, with score 0. |
| Search.SearchBounded | src/menu/search.rs:46-63 | In every mode, at most `limit` results, each holding an input item. |

`Search.DefaultOptions` is `SearchOptions(10, false, false)`, the values of
`SearchOptions::default()` (src/menu/search.rs:29-36).

## Left out

- The Accessibility FFI calls, CoreFoundation memory management, value parsing and the 1-second messaging timeout of src/ax/element.rs: they are replaced by the `RawElem` input. A null batch result is assumed to arrive as `None` in every slot.
- Process lookup and the permission check in src/ax/app.rs and src/ax/permissions.rs. `build_all_extras` is also left out: it only loops over `list_running_apps`, which is process I/O.
- The command layer (src/commands, src/cli, src/main.rs): argument parsing, rendering, JSON output, timing. The toggle command rebuilds the tree once and has no confirmation loop, so none is modelled.
- Error message texts from the `#[error]` strings: `Types.FromMenuError` takes the rendered message as a parameter.
- Tree.BuildTreeWithOpts: the top-level walks run one per thread in the source. The model runs them one after the other (`WalkEachTopLevel`), then joins them in index order (`JoinSlots`). The threads share nothing and each writes its own slot, so the result is the same. A panicking thread is treated like a failed walk.
- Tree.AlternateAttribution: stated for child lists without `AXMenu` groups. Across a group the last primary title resets to `None`, which `GroupIsTransparent` states separately.
- Resolve.Confident: the `f32` ratio `best / max(second, 1.0) >= 2.0` is the exact integer test `best >= 2 * max(second, 1)`. This ignores `f32` rounding of scores above 2^24.
- Resolve.FindFirst: case-insensitive comparison uses ASCII lower-casing only (`Strings.Lower`), not Unicode `to_lowercase`. The same holds for `Resolve.LeafMatchesMembers` and the exact search.
- Scoring.SortByScoreDesc: the standard library's stable `sort_by` is modelled as a stable insertion sort. Only its result is claimed, not its running time.
- The fuzzy matcher (nucleo): it is the `Scorer` parameter. Its scoring, the `Smart` normalisation and path matching are not modelled.
- Integer widths: `usize` depths, limits and counts, and `u32` scores, are `nat`. No overflow is modelled because none is reachable. The AX status code is `int32` and the modifier mask `int64`, tested through its two's-complement bits.
- Element references are values (`Option<RawElem>`): identity, retain/release and aliasing of AX elements are not modelled.
- The doc comment at src/menu/shortcut.rs:27 says that mask 3 gives `⌥⌘S`. The model follows the code and its tests, which give `⌥⇧⌘S` (`Shortcut.ShiftOptionCommandExample`).
