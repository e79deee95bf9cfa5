# notion-mirror core, modelled in Dafny

notion-mirror serves a Notion workspace export as a website. This project
models the logic of five of its files and proves what they promise:

- **Markdown extraction** (`src/lib/parser/markdown.ts`). The page title is
  the first match of `/^#\s+(.+)$/m`, trimmed, and `Untitled` when nothing
  matches. Local image targets come from the global
  `/!\[([^\]]*)\]\(([^)]+)\)/g` scan. `readMarkdownFile` works over a file map.
  `findFileByUuid` is a depth-first search over a directory tree. Both
  patterns are modelled by hand-written scanners. Each scanner is proved to
  give the leftmost match, as the regular expression semantics require.
- **Sidebar expansion state** (`src/components/Sidebar/NavTree.tsx`). The
  expanded set is a class with one method per operation: initial top-level
  expansion, `findPath` plus auto-expansion, `toggle`, `expandAll`,
  `collapseAll`, and the nav-link click. `NavItem` gives each node a row:
  padding, toggle button, link kind, active flag, and the children shown
  below it.
- **Home page** (`src/app/page.tsx`). `topLevelPages`, the per-section
  render, the section-header condition and the `PageCard` child-count label.
- **Image endpoint** (`src/app/api/image/route.ts`). The `GET` decision
  between 400, 403, 404 and an image response with its MIME type. Node's
  POSIX `path.join`, `path.normalize`, `path.resolve` and `path.extname` are
  modelled as segment folding over `.` and `..`. The containment test is the
  string-prefix test the code performs.
- **Image gallery** (`src/components/ImageGallery/ImageGallery.tsx`).
  `getImageUrl` and the lightbox as a class whose state is the selected
  index.

The navigation node that the sidebar and the home page receive is the
datatype `NavNodes.NavNode`. It has the fields those components read. The
parser that builds it (`@/lib/parser/index-html`) is not part of this model.

Modules: `Common` (Option, JavaScript string operations), `PosixPath`,
`Markdown`, `NavNodes`, `NavTree`, `HomePage`, `ImageRoute`, `ImageGallery`.

## Model

| member | source | states |
|---|---|---|
| Markdown.TitleMatchAt | src/lib/parser/markdown.ts:12 | a capture found at a start is a match of the pattern; its start is the latest possible (the longest `\s+`); its end is forced; none found means no match starts there (`\s+` gives characters back when it must) |
| Markdown.FirstTitleMatch | src/lib/parser/markdown.ts:12 | the scan returns a match, and no match starts before it |
| Markdown.ReportedMatchIsFirst | src/lib/parser/markdown.ts:12 | the match `String.prototype.match` reports (leftmost, longest `\s+`) is the one the scan finds |
| Markdown.ReportedMatchExists | src/lib/parser/markdown.ts:12 | whenever the pattern matches anywhere, the scan finds the reported match |
| Markdown.ExtractTitle | src/lib/parser/markdown.ts:11-13 | `Untitled` when the pattern matches nowhere |
| Markdown.ExtractTitleOfReported | src/lib/parser/markdown.ts:11-13 | otherwise the title is the trimmed capture of the reported match |
| Markdown.SubheadingsGiveUntitled | src/lib/parser/markdown.ts:12 | a text whose every line-initial `#` is followed by `#` gives `Untitled` |
| Markdown.HeadingTextOnNextLine | src/lib/parser/markdown.ts:12 | `\s` matches a line break: `#\nFoo` gives the title `Foo` |
| Markdown.BlankHeadingGivesEmptyTitle | src/lib/parser/markdown.ts:12-13 | a heading of blanks only gives the empty title, not `Untitled` |
| Markdown.ImageMatchAtCorrect | src/lib/parser/markdown.ts:18 | the image scanner finds a match at a start exactly when the pattern matches there, and the match is unique |
| Markdown.NextMatchLeftmost | src/lib/parser/markdown.ts:21 | one `exec` returns the leftmost match at or after `lastIndex` |
| Markdown.Exec | src/lib/parser/markdown.ts:21 | the scanning loop returns exactly that leftmost match |
| Markdown.ExtractImages | src/lib/parser/markdown.ts:16-30 | the loop returns the local targets of all matches, in document order with duplicates kept; `basePath` plays no part |
| Markdown.LocalFromIsKeepLocal | src/lib/parser/markdown.ts:21-27 | filtering during the scan equals filtering the list of all targets |
| Markdown.TargetsWellFormed | src/lib/parser/markdown.ts:18 | every target is non-empty and holds no `)` |
| Markdown.LocalTargetsWellFormed | src/lib/parser/markdown.ts:16-29 | every returned target is non-empty, holds no `)`, is local, and is one of the document's targets |
| Markdown.KeepLocalSound | src/lib/parser/markdown.ts:24 | every kept target is local and comes from the input |
| Markdown.KeepLocalComplete | src/lib/parser/markdown.ts:24-26 | every local target is kept |
| Markdown.KeepLocalIdentity | src/lib/parser/markdown.ts:24-26 | an all-local list passes unchanged (order and duplicates kept) |
| Markdown.LocalityExamples | src/lib/parser/markdown.ts:24 | `/x`, `HTTP://x` and `ftp://x` are kept; `http://x` and `https://x` are dropped |
| Markdown.ResolveFilePath | src/lib/parser/markdown.ts:32-41 | a path exactly when something exists at `path.join(dataPath, relativePath)`, and then that joined path |
| Markdown.ResolveFilePathEscapes | src/lib/parser/markdown.ts:34 | there is no containment check: `../etc/passwd` under `/data` resolves to `/etc/passwd` |
| Markdown.ReadMarkdownFile | src/lib/parser/markdown.ts:43-56 | null exactly when nothing exists at the joined path; a throw when it is a directory; otherwise the file text unchanged, with its title and its local images |
| Markdown.SearchDir | src/lib/parser/markdown.ts:63-84 | the loop with recursion and early return yields the first matching file of the depth-first walk |
| Markdown.FindFileByUuid | src/lib/parser/markdown.ts:58-87 | the relative path of that first match of the derived fragments, or null |
| Markdown.FilesSound | src/lib/parser/markdown.ts:63-81 | every path of the depth-first walk names a file below the listed directory |
| Markdown.FilesComplete | src/lib/parser/markdown.ts:63-81 | every file below the directory is met by the walk |
| Markdown.FirstMatchAppend | src/lib/parser/markdown.ts:66-81 | entries are tried in listing order, and a directory is descended at its place in the listing |
| Markdown.FindFileByUuidCorrect | src/lib/parser/markdown.ts:58-87 | a hit is a `.md` file below the root whose stem holds the hyphen-free id or whose lower-cased stem holds the first 8 characters, and no file met earlier matches; null exactly when no file matches |
| Markdown.PlainNameMatches | src/lib/parser/markdown.ts:72-77 | for `stem.md` with no other dot, the stem searched is exactly `stem` |
| Markdown.UpperCaseShortFragment | src/lib/parser/markdown.ts:60-76 | the fragment is not lower-cased, so one with an upper-case letter never matches the lower-cased stem |
| Common.RemoveFirst | src/lib/parser/markdown.ts:73 | `replace` with a string removes the first occurrence only, and leaves the string unchanged when there is none |
| Common.RemoveAll | src/lib/parser/markdown.ts:61 | `replace(/-/g, '')` leaves no `-`, keeps every other character as often as before, and leaves a string without `-` unchanged |
| Common.RemoveAllAppend | src/lib/parser/markdown.ts:61 | removal works piece by piece, so the kept characters stay in their order |
| Common.Take | src/lib/parser/markdown.ts:60 | `slice(0, 8)` is the prefix of length min(8, length) |
| Common.Trim | src/lib/parser/markdown.ts:13 | the result is a slice with only white space cut on each side, and starts and ends with a non-blank |
| NavNodes.AllNodesContains | src/components/Sidebar/NavTree.tsx:107-115 | the pre-order walk meets every top-level node and every child of a node it meets |
| NavTree.ChainsShape | src/components/Sidebar/NavTree.tsx:149-159 | one root-to-node chain per node of the walk, each a parent-child chain ending at that node |
| NavTree.FindPath | src/components/Sidebar/NavTree.tsx:149-159 | the loop with recursion and early return yields the ids of the first chain whose last node has the slug |
| NavTree.FirstChainCorrect | src/components/Sidebar/NavTree.tsx:149-159 | that chain is a parent-child chain from a top-level node down to the first node, in pre-order, with the slug; none exactly when no node has it |
| NavTree.CollectIdsIsWalk | src/components/Sidebar/NavTree.tsx:184-186 | `collectIds` lists the ids of the pre-order walk |
| NavTree.Toggled | src/components/Sidebar/NavTree.tsx:171-181 | `id`'s membership flips and every other id keeps its own |
| NavTree.ToggleTwice | src/components/Sidebar/NavTree.tsx:171-181 | toggling twice restores the set |
| NavTree.AfterNavClick | src/components/Sidebar/NavTree.tsx:37-42 | a nav click never removes an id; it opens a node with children and changes nothing for a node without |
| NavTree.AddAll | src/components/Sidebar/NavTree.tsx:164-166 | the loop adds exactly the path's ids |
| NavTree.ExpandedNodes.constructor | src/components/Sidebar/NavTree.tsx:138-143 | the initial set is exactly the top-level ids of the first tree |
| NavTree.ExpandedNodes.SetTree | src/components/Sidebar/NavTree.tsx:137-143 | a later render with another tree keeps the expanded set (the initializer does not run again, so a sidebar first rendered with `[]` starts with nothing expanded); `AutoExpand` and `ExpandAll` then use the new tree |
| NavTree.ExpandedNodes.AutoExpand | src/components/Sidebar/NavTree.tsx:146-169 | the new set is the old one plus the ids of the chain to the current slug; nothing is removed |
| NavTree.ExpandedNodes.Toggle | src/components/Sidebar/NavTree.tsx:171-181 | the new set is the toggled old set |
| NavTree.ExpandedNodes.ExpandAll | src/components/Sidebar/NavTree.tsx:183-188 | the new set is every id of the tree |
| NavTree.ExpandedNodes.CollapseAll | src/components/Sidebar/NavTree.tsx:190-192 | the new set is empty |
| NavTree.ExpandedNodes.NavClick | src/components/Sidebar/NavTree.tsx:37-42 | the new set is the nav-click update of the old one |
| NavTree.LateTree | src/components/Sidebar/NavTree.tsx:137-143 | a hook first given `[]` and then a tree keeps that tree with nothing expanded |
| NavTree.TopLevelIdsInTree | src/components/Sidebar/NavTree.tsx:138-142 | the initial ids are ids of the tree, one per top-level node |
| NavTree.AutoExpandIdsInTree | src/components/Sidebar/NavTree.tsx:161-167 | auto-expansion adds only ids of the tree |
| NavTree.AutoExpandOpensAncestors | src/components/Sidebar/NavTree.tsx:146-168 | for a slug some node has, every node on the chain to it is opened |
| NavTree.AutoExpandWithoutMatch | src/components/Sidebar/NavTree.tsx:147-162 | a falsy slug, or one no node has, adds nothing |
| NavTree.RowOf | src/components/Sidebar/NavTree.tsx:29-104 | the node's id and title; padding `level*12+8`; toggle button iff children; external link iff external, to the node's `externalUrl`; page link to `/page/<slug>` iff clickable (not external, and a truthy file path or children); plain text otherwise; active iff the slug is the current slug; CSV badge iff a dataset |
| NavTree.VisibleRowIds | src/components/Sidebar/NavTree.tsx:107-115 | a node's children are rendered below it iff it has children and is expanded |
| NavTree.CollapsedShowsTopLevel | src/components/Sidebar/NavTree.tsx:107-134 | with nothing expanded, only the given nodes are rendered, in order |
| NavTree.ExpandedShowsAll | src/components/Sidebar/NavTree.tsx:107-134 | with every node expanded, the whole tree is rendered in pre-order |
| HomePage.WithFile | src/app/page.tsx:30 | the filter keeps exactly the nodes with a truthy file path |
| HomePage.TopLevelPagesMembers | src/app/page.tsx:27-31 | every page has a file; a page is a top-level node with a file, or a direct child with a file of a top-level node without one |
| HomePage.TopLevelPagesOfNode | src/app/page.tsx:28-30 | a node with a file contributes only itself; one without contributes its children with a file, in order |
| HomePage.TopLevelPagesAppend | src/app/page.tsx:27 | the selection keeps tree order |
| HomePage.Header | src/app/page.tsx:48-50 | a header is shown iff the node has no file and some children, and it is the node's title |
| HomePage.Render | src/app/page.tsx:45-65 | one section per top-level node, in order |
| HomePage.RenderedCardsAreTopLevelPages | src/app/page.tsx:27-62 | the cards rendered across the sections are exactly the cards of `topLevelPages`, in order |
| HomePage.CountLabel | src/app/page.tsx:102-104 | no label for no child, `1 page` for one, `<n> pages` for more, where `<n>` is a numeral (digits, no leading zero) denoting the count |
| HomePage.NumeralIsDecimal | src/app/page.tsx:104 | a numeral is the printed form of the number it denotes, so the `<n>` of the label is unique |
| HomePage.DecimalRoundTrip | src/app/page.tsx:104 | the printed count reads back as the count |
| HomePage.CardOf | src/app/page.tsx:71-104 | a card links to `/page/<slug>`, shows the node's title, has the CSV icon iff the node is a dataset, and carries the count label of its children |
| PosixPath.SplitThenJoin | src/app/api/image/route.ts:26 | splitting at `/` and joining back is the identity |
| PosixPath.FoldWithoutParent | src/app/api/image/route.ts:26-29 | without `..`, normalisation only drops empty and `.` segments |
| PosixPath.ResolveJoin | src/app/api/image/route.ts:26-29 | resolving the joined path folds the relative path's segments onto the resolved data root |
| PosixPath.ResolveNormalized | src/app/api/image/route.ts:29 | resolving a normalised absolute path keeps the normalised segments, which are all names |
| PosixPath.ResolveNames | src/app/api/image/route.ts:30 | a path of plain names resolves to those names, with or without a trailing `/` |
| PosixPath.ComponentExtension | src/app/api/image/route.ts:40 | the extension is empty, or a dot-led suffix of the last component with no other dot; it is non-empty exactly when the component is not `..` and has a dot after its first character |
| PosixPath.Dirname | src/lib/parser/markdown.ts:52 | `.` for the empty path; otherwise `.`, `/`, `//`, or a proper prefix of the path that ends just before a separator |
| PosixPath.DirnameOfChild | src/lib/parser/markdown.ts:52 | the directory of `d/name` is `d` when `d` does not end in `/` |
| PosixPath.DirnameOfRootName | src/lib/parser/markdown.ts:52 | the directory of `/name` is `/` |
| ImageRoute.ContentTypeOfPath | src/app/api/image/route.ts:40-41 | the extension of `/data/cat.PNG` is `.PNG` and its content type is `image/png` |
| ImageRoute.MimeType | src/app/api/image/route.ts:6-41 | a table extension gives its `image/` type; anything else gives `application/octet-stream` |
| ImageRoute.MimeTypeExamples | src/app/api/image/route.ts:6-41 | `.PNG` is lower-cased to `image/png`; `.jpg` and `.jpeg` both give `image/jpeg`; `.bmp` and no extension give the default |
| ImageRoute.Get | src/app/api/image/route.ts:16-51 | 400 iff the parameter is missing or empty; 403 iff present and the resolved path lacks the resolved root as a string prefix; 404 iff it passes and nothing exists; an image iff it passes and a regular file exists, with that file's bytes, the MIME type of its lower-cased extension and the fixed immutable cache header; a throw iff it is a directory; no other JSON answer |
| ImageRoute.RejectionIgnoresFiles | src/app/api/image/route.ts:20-34 | a 400 or 403 does not depend on the file system |
| ImageRoute.SegmentContainedPassesPrefix | src/app/api/image/route.ts:32 | a path contained segment by segment passes the prefix test |
| ImageRoute.NoParentStaysInside | src/app/api/image/route.ts:26-34 | a path without `..` segments stays inside the data root |
| ImageRoute.EscapeIsForbidden | src/app/api/image/route.ts:29-34 | `../../etc/passwd` under `/data` gets 403 |
| ImageRoute.SiblingIsServed | src/app/api/image/route.ts:32 | `../data2/cat.png` under `/data` lies outside the root yet is served |
| ImageRoute.GetContained | src/app/api/image/route.ts:16-51 | the same decision, each case pinned by an iff, with a segment-aware containment test |
| ImageRoute.GetContainedCorrect | src/app/api/image/route.ts:29-34 | the sibling path gets 403; the two decisions agree on contained paths; every 403 of the prefix test is a 403 of the segment test |
| ImageGallery.ImagePath | src/components/ImageGallery/ImageGallery.tsx:16 | a leading `/` is dropped; otherwise the path is `basePath`, `/`, then `src` |
| ImageGallery.OneSlashDropped | src/components/ImageGallery/ImageGallery.tsx:16 | exactly one leading `/` is dropped |
| ImageGallery.ImageUrl | src/components/ImageGallery/ImageGallery.tsx:14-18 | the URL is the image endpoint followed by that path |
| ImageGallery.Next | src/components/ImageGallery/ImageGallery.tsx:23-89 | a thumbnail selects its index; close and overlay close the lightbox; previous and next move by one; a click on the image, or on what is not shown, changes nothing |
| ImageGallery.NextInRange | src/components/ImageGallery/ImageGallery.tsx:26-75 | every click keeps the selected index within the images |
| ImageGallery.RunInRange | src/components/ImageGallery/ImageGallery.tsx:55-86 | any sequence of clicks keeps `images[selectedIndex]` defined |
| ImageGallery.PrevThenNext | src/components/ImageGallery/ImageGallery.tsx:55-75 | previous then next returns to the same image |
| ImageGallery.Gallery.constructor | src/components/ImageGallery/ImageGallery.tsx:11-12 | the lightbox starts closed, with the images and base path of the first render |
| ImageGallery.Gallery.SetImages | src/components/ImageGallery/ImageGallery.tsx:11-12 | a render with other props keeps the selected index, which may then be out of range |
| ImageGallery.Gallery.Click | src/components/ImageGallery/ImageGallery.tsx:23-89 | a click on a page that rendered (index in range) updates the index as `Next` says, and the index stays in range |
| ImageGallery.Gallery.Shown | src/components/ImageGallery/ImageGallery.tsx:40-86 | closed iff no index is selected; the render throws iff the index is past the end of the images; otherwise the large image with that image's URL |
| ImageGallery.ShrunkWhileOpen | src/components/ImageGallery/ImageGallery.tsx:11-16 | the lightbox open on the second of two images, re-rendered with one image, throws |

## Left out

- `src/lib/config.ts` is not part of this model. `getDataPath` becomes the `dataPath` parameter. The image endpoint requires it to be absolute, which is what that function returns.
- File-system I/O (`existsSync`, `readFileSync`, `readdirSync`) is modelled by a map from absolute paths to files or directories, and by a directory-tree datatype for listings. File-system errors other than reading a directory are not modelled. Each spelling of a path is a separate key: a path with a trailing `/` is found only if the map holds that spelling, whereas `existsSync("dir/")` finds the directory `dir`.
- `encodeURIComponent` and `decodeURIComponent` are the identity. The throw on a malformed `%` escape is not modelled, and neither is the second decoding after `searchParams.get`.
- `toLowerCase` is modelled for ASCII letters only.
- The regular-expression engine is not modelled. The two fixed patterns have hand-written scanners, with proofs that they find the leftmost match.
- Markdown.ReadMarkdownFile: `basePath` is computed as `Dirname(filePath)` and passed to `ExtractImages`, which ignores it, so no property of the result depends on it.
- Strings are sequences of Unicode code points, not of UTF-16 code units. Lengths, indices and `slice` differ from JavaScript on characters outside the Basic Multilingual Plane; for example `uuid.slice(0, 8)` in `findFileByUuid` takes 8 code units, which may split a surrogate pair.
- `src/app/api/nav/route.ts`, the export-tree parser behind it, `src/app/api/csv/[id]/route.ts` and the Breadcrumbs component are not part of this model.
- React and Next.js scheduling is not modelled: `useEffect` timing, the fetch and its `Loading...` state in `page.tsx`, JSX markup, CSS classes, SVG icons and `navigator.platform`.
- NavTree.ExpandedNodes: a render is not one operation. A render with a new tree is `SetTree` followed by `AutoExpand`, because the effect depends on the tree; the class does not enforce that order.
- ImageGallery.RunInRange: the in-range property holds for clicks while the images stay the same; `SetImages` with a shorter list can put the index out of range.
- ImageGallery.Next: event propagation is modelled by which handler wins for each target, not as a DOM event.

## Findings

| source | as written | input that shows it | evidently intended | confidence | as-written member | corrected member |
|---|---|---|---|---|---|---|
| src/app/api/image/route.ts:32 | `resolvedPath.startsWith(resolvedDataPath)`, a string-prefix test | data root `/data`, `path=../data2/cat.png`: it resolves to `/data2/cat.png`, which starts with `/data` and is served | only files inside the data directory are served, i.e. a segment-aware containment test | not executed | ImageRoute.SiblingIsServed | ImageRoute.GetContainedCorrect |
