# Better Tree: a verified model of the directory-tree renderer

This project models, in Dafny, the core of the Better Tree extension. The core renders a directory as an indented text tree in the style of the Unix `tree` command:

- a root line holding the directory's base name and an optional size;
- then one line per surviving child, drawn with `├── ` or `└── `;
- each line followed by the child's own subtree while the depth limit allows;
- indentation built from `│   ` and `    ` segments, which record whether each ancestor was the last of its siblings.

Hidden entries (names starting with `.`) and entries whose name is in the excluded set are dropped at every level, together with everything below them.

The filesystem is replaced by an in-memory tree:

- `Entries.Entry` is `File(name, size)` or `Dir(name, size, children)`.
- `children` is in directory-listing order.
- `size` is the entry's own stat size. For a directory it is the size of the directory itself, never a sum over its contents.

The traversal configuration is `Entries.Config`:

- the maximum depth, where -1 means unlimited;
- the excluded names;
- the `showSize` flag;
- the size formatter of `./helper`, which is passed in as a function value. `./helper` is not part of this model.

Modules:

- `Entries` (entries.dfy): the tree, the filter `Visible` applied to every listing, and reference definitions over the tree. `Prune` drops filtered entries at every level. `Reach` counts the entries reachable through surviving entries.
- `Lines` (lines.dfy): an emitted line, kept as its four parts: indentation, branch glyph, name and size suffix. `Text` gives a line's newline-terminated text, and `Join` concatenates line texts.
- `Render` (render.dfy): what `generateTree` produces, as a function from a directory to its lines. `Listing`, `Blocks` and `Block` are mutually recursive: a listing is the blocks of its surviving children in order, and a block is the child's line followed by its subtree when the renderer descends into it. `Document` adds the root line. The module also holds the properties of this rendering.
- `Generate` (generate.dfy): `GenerateTree` is the renderer as the program runs it. It loops over the filtered children, appends each line (and the recursively rendered subtree) to an accumulated string, and is proved equal to `Join(Listing(...))`. `FetchTree` is the entry point: it rejects a root that is not a directory and prepends the root line.

## Model

| member | source | states |
|---|---|---|
| `Entries.Visible` | src/index.tsx:50 | an entry survives the filter exactly when it is in the listing, its name does not start with `.` and is not excluded; the filtered listing is no longer than the original |
| `Entries.VisibleAppend` | src/index.tsx:50 | the filter keeps listing order: filtering a concatenation concatenates the filtered parts |
| `Entries.PruneAllShown` | src/index.tsx:50 | the pruned reference tree holds, at every level, only entries that survive the filter |
| `Lines.Text` | src/index.tsx:79-81 | every emitted line ends in a newline, and its length is the sum of its parts plus one |
| `Lines.JoinAppend` | src/index.tsx:79-81 | appending line texts to the accumulated string matches concatenating the lines |
| `Lines.Join` | src/index.tsx:52-85 | the accumulated text has at least one character per emitted line, is empty exactly when no line is emitted, and otherwise ends in a newline |
| `Lines.JoinNewlines` | src/index.tsx:79-81 | when no part of any line holds a newline, the text has exactly one newline per emitted line |
| `Render.ChildPlacement` | src/index.tsx:54-81 | the surviving child at index i gets its line right after the blocks of the children before it, with indentation `parentPrefix`, the glyph for its position, its name and its own size suffix; that line is followed immediately by its whole subtree, indented by the continuation for its position, and by nothing else before the next sibling |
| `Render.Descends` | src/index.tsx:69 | only directories are descended into; below level `depth - 1`, and at every level when depth is -1, every directory is; with any other depth, nothing listed at level `depth - 1` or deeper is, so depth 0 or 1 draws only the root's children |
| `Render.SizeSuffix` | src/index.tsx:62-67 | with sizes off the suffix is empty; with sizes on it is ` (`, the formatted size and `)`, exactly three characters longer than the formatted size |
| `Render.Glyph` | src/index.tsx:56-57 | the branch glyph is four characters wide; it is `└── ` exactly for the last of the n surviving children and `├── ` for every other |
| `Render.Continuation` | src/index.tsx:58 | the segment inherited by a child's descendants is one whole indentation segment, as wide as the branch glyph; it is `    ` exactly below the last child and `│   ` below every other |
| `Render.Listing` | src/index.tsx:38-86 | a directory's rendering has at least one line per surviving child, and every line is indented by `parentPrefix` or more and carries `├── ` or `└── ` |
| `Render.Blocks` | src/index.tsx:52-82 | after the first n children, the accumulated lines number at least n, each indented by `parentPrefix` or more and carrying `├── ` or `└── ` |
| `Render.Block` | src/index.tsx:54-81 | one child contributes its own line, indented exactly by `parentPrefix`, then only lines indented by `parentPrefix` plus its continuation segment |
| `Render.GlyphChoice` | src/index.tsx:54-81 | in a listing, the line of the surviving child at index i carries `└── ` exactly when i is the last index and `├── ` exactly when it is not; every line of that child's subtree is indented by `parentPrefix` followed by `    ` below the last child and by `│   ` below any other |
| `Render.DeepChild` | src/index.tsx:69-78 | while the level is below `depth - 1`, each surviving directory child's line is followed by that child's whole listing one level down, indented by its continuation segment, so the default depth of 2 draws grandchildren |
| `Render.EmptyListing` | src/index.tsx:52-85 | a directory renders no line, and the empty string, exactly when no child survives the filter |
| `Render.ListingDrawn` | src/index.tsx:44-81 | every line of a listing below `parentPrefix` has an indentation that is `parentPrefix` followed by whole `│   `/`    ` segments, a `├── ` or `└── ` branch, a name that is neither hidden nor excluded, and a suffix that is a formatted size (empty when sizes are off) |
| `Render.NoSizeLines` | src/index.tsx:62-81 | without sizes, every line is exactly indentation + branch + name + newline |
| `Render.DroppedChildIrrelevant` | src/index.tsx:50 | inserting a hidden or excluded entry anywhere in a listing, whatever it contains, leaves the rendering unchanged |
| `Render.ListingPruned` | src/index.tsx:50-78 | rendering a tree equals rendering it with every hidden or excluded entry and its whole subtree removed at every level: the filter runs before recursion, so nothing below a dropped entry is drawn |
| `Render.ShallowListing` | src/index.tsx:69-81 | once the depth gate is closed, a listing has exactly one line per surviving child, in order, with indentation `parentPrefix` and the glyph for its position, and nothing from grandchildren |
| `Render.RootLine` | src/index.tsx:133-140 | the root's line has no indentation and no branch: its text is the root's name, its own size suffix and a newline |
| `Render.Document` | src/index.tsx:140 | the rendering starts with the root line, which is the only line without a branch glyph, and has at least one further line per surviving root child |
| `Render.ShallowDocument` | src/index.tsx:56-69 | with depth 0, 1, or any negative depth other than -1, the output is the root line plus exactly one unindented line per surviving root child, in listing order, the last with `└── ` and every other with `├── ` |
| `Render.ListingCount` | src/index.tsx:69-78 | a listing has at least one line per surviving child and at most one line per entry reachable through surviving entries; with depth -1 it has exactly one line per such entry |
| `Render.DocumentLineCount` | src/index.tsx:69-85 | with depth -1, and no newline inside names or formatted sizes, the whole text has one newline-terminated line for the root plus one per reachable non-filtered entry |
| `Generate.GenerateTree` | src/index.tsx:38-86 | the accumulating loop over filtered children, with recursion into subdirectories behind the depth gate, returns exactly `Join(Listing(dir, cfg, currentDepth, parentPrefix))` |
| `Generate.BlockText` | src/index.tsx:54-82 | one loop step appends the child's line text and, when it descends, the text of its subtree to the text of the earlier children |
| `Generate.FetchTree` | src/index.tsx:126-140 | the call succeeds exactly when the root is a directory; a root that is not a directory yields `NotADirectory` and no tree; otherwise the text is the root's name, its own size suffix and a newline, followed by the rendering of its contents from level 0 with empty indentation |
| `Generate.ProjectExample` | src/index.tsx:54-81 | `project` with `src/main.go` and `README.md`, unlimited depth, no sizes: the root line, `├── src`, `│   └── main.go`, `└── README.md` |

## Left out

- The React command component, its state, toasts, the detail and edit views and the preferences action (src/index.tsx:94-228). They are user-interface plumbing.
- The Finder selection and its "no directory selected" error (src/index.tsx:107-112). This is a host API call; the model receives the root entry directly.
- Parsing of preferences and arguments (src/index.tsx:115-124, 131). That code relies on JavaScript `parseInt`, `NaN` and string splitting. The model takes the depth as an integer, the excluded names as a set and `showSize` as a boolean. A `NaN` depth, which makes every comparison false and so never descends, is not modelled.
- `fs.readdir` and `fs.stat`, with async/await (src/index.tsx:47, 64, 126, 135). The in-memory tree stands in for both, and the traversal is sequential. Listing or stat failures, including a root that does not exist, are not modelled: only the not-a-directory check is.
- `path.join` and `path.basename` (src/index.tsx:60, 140). Each entry stores its base name.
- `formatSize` from `./helper`, which is not part of this model. It is a caller-supplied function, and nothing is assumed about it except where a lemma states a hypothesis (no newline in its output).
- The colour-tag stripping applied when copying or editing (src/index.tsx:190, 206). It belongs to the presentation layer.
- Symbolic links are not a kind of their own; each is resolved as the source resolves it. For a listed child, the kind comes from the directory-listing entry, which does not follow links (src/index.tsx:47, 69): a link to a directory is a `File` and is never descended into. For the root, the kind comes from `fs.stat`, which follows links (src/index.tsx:126-127): a link to a directory is a `Dir`. Sizes come from `fs.stat` (src/index.tsx:64, 135), so a link's size is its target's size. Regular files, sockets and the like are all `File`. A dangling link, whose `stat` fails when sizes are shown, falls under the stat failures above.
- Render.ListingDrawn: states only that each suffix is the formatted size of some entry. That the size is the entry's own stat size is stated per child by `Render.ChildPlacement`.
