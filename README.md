# Drive page navigation model

A Dafny model of the logic of the "Google Drive clone" page
(`src/app/page.tsx`): a catalog of folders and files linked by parent ids
and rooted at the sentinel id `"root"`, the id of the folder being viewed,
the two listings of that folder's children, and the breadcrumb trail built
by climbing parent pointers. The catalog is a parameter (the page's mock
data module is not part of this model), and the rendering is left out.

- `catalog.dfy` (module `Catalog`): the `FolderType`/`FileType` records as
  datatypes `Folder` and `File`, the sentinel `Root`, and `Option`.
- `listing.dfy` (module `Listing`): `Filter` (the array `filter`), and the
  two listings `CurrentFiles` and `CurrentFolders`, with the proof that a
  filter is determined by being an order-preserving subsequence that keeps
  exactly the matching records with their multiplicities.
- `breadcrumbs.dfy` (module `Breadcrumbs`): `Find` (the array `find`), the
  `while` loop of `getBreadcrumbs` as the method `GetBreadcrumbs`, the
  trail it computes as the function `Trail`, and an independent description
  of a trail's shape, `IsTrailOf`, proved equivalent to it. Termination is
  stated by `Halts(folders, id, n)` ("the walk stops within n resolved
  steps"); the loop's `decreases` is a ghost bound taken from it.
  An acyclic catalog (one with a rank that drops from child to parent)
  always satisfies it, and from an id on a cycle the walk never stops.
- `navigation.dfy` (module `Navigation`): the class `Drive` with the one
  mutable field `currentFolder` and the click handlers, plus two client
  methods that walk through a small catalog using only the contracts.

Notes on the source:

- Line 67 initialises the walk from `currentFolderl`, an identifier that is
  declared nowhere; the `useMemo` dependency list on line 80 shows that
  `currentFolder` is meant, and the model uses `currentFolder`.
- The trail includes the current folder itself, as its last element: the
  first iteration looks up `currentFolder` and prepends it when found. A
  breadcrumb bar usually stops at the parent; the model follows the code.
- The `parent` fields are declared `string`, so the `?? "root"` fallback on
  line 73 never applies; parents are plain strings here.
- `File.type` is called `kind`, since `type` is a Dafny keyword.

## Model

| member | source | states |
|---|---|---|
| `Listing.Filter` | src/app/page.tsx:53-59 | the result keeps exactly the elements satisfying the predicate, each with its multiplicity in the input, as an order-preserving subsequence of the input, never longer than it |
| `Listing.FilterUnique` | src/app/page.tsx:53-59 | any subsequence of the input holding exactly the matching elements with their multiplicities equals the filter: the contract of `Filter` determines its result |
| `Listing.CurrentFiles` | src/app/page.tsx:53-55 | a file is listed iff it is in the catalog with `parent == currentFolder`, with its catalog multiplicity, in catalog order; the listing is empty iff no file has that parent (an id that no file names as parent lists nothing); each file is in the listing of its own parent and of no other folder |
| `Listing.CurrentFolders` | src/app/page.tsx:57-59 | the same for folders: exactly the folders whose parent is `currentFolder`, in catalog order, a subsequence of the catalog, empty iff none has that parent |
| `Breadcrumbs.Find` | src/app/page.tsx:70 | None iff no folder has the id; otherwise a catalog folder with that id |
| `Breadcrumbs.FindFirst` | src/app/page.tsx:70 | when some folder has the id, the one found is the first such folder in catalog order |
| `Breadcrumbs.GetBreadcrumbs` | src/app/page.tsx:65-80 | the loop returns a sequence of the shape `IsTrailOf` describes for `currentFolder` (empty iff `currentFolder` is `"root"` or unresolved; root-to-leaf; each folder's parent is the one before it; last is the current folder's own record; first has parent `"root"` or an unresolved parent), every element a catalog record, and equal to `Trail` for every bound under which the walk stops |
| `Breadcrumbs.IsTrailOfSnoc` | src/app/page.tsx:70-73 | one iteration: prepending the resolved folder of a non-root id to its parent's trail gives that id's trail, and every trail of the id arises so |
| `Breadcrumbs.TrailIsTrailOf` | src/app/page.tsx:69-77 | the walk's trail has the shape `IsTrailOf` describes (including: `"root"` gives the empty trail, an unresolved id gives the empty trail, an unresolved ancestor truncates the trail) |
| `Breadcrumbs.IsTrailOfUnique` | src/app/page.tsx:69-77 | a sequence of that shape is the walk's trail, so the shape characterises the result completely |
| `Breadcrumbs.TrailDepth` | src/app/page.tsx:69-77 | for a folder at depth `d` (edges from `"root"`), the trail has length `d` and, when `d > 0`, its first folder's parent is `"root"` |
| `Breadcrumbs.TrailReachesRoot` | src/app/page.tsx:69-77 | the walk ended at `"root"` rather than at an unresolved id iff the id is `"root"` or the trail's first folder has parent `"root"`; then the trail's length is the id's depth |
| `Breadcrumbs.ReachesRootHalts` | src/app/page.tsx:69-77 | a folder whose parent chain reaches `"root"` in `d` steps is one the walk stops on within `d` iterations |
| `Breadcrumbs.RankedHalts` | src/app/page.tsx:69-77 | in an acyclic catalog (a rank dropping from each folder to its parent) the walk from any id stops, within the rank of that id |
| `Breadcrumbs.CycleNeverHalts` | src/app/page.tsx:69-77 | from an id on a cycle of resolved parent pointers avoiding `"root"`, no bound makes the walk stop |
| `Breadcrumbs.CycleDiverges` | src/app/page.tsx:69-77 | hence the loop, which has no cycle check, does not terminate from an id on a cycle |
| `Navigation.Drive.constructor` | src/app/page.tsx:51 | the page starts with `currentFolder == "root"` over the given catalog |
| `Navigation.Drive.HandleFolderClick` | src/app/page.tsx:61-63 | sets `currentFolder` to the clicked id, whatever it is and whatever it was, so clicking the same id twice is the same as once; the catalog is constant |
| `Navigation.Drive.ShowMyDrive` | src/app/page.tsx:92 | the "My Drive" button sets `currentFolder` to `"root"` from any state |
| `Navigation.Drive.HandleUpload` | src/app/page.tsx:82-84 | uploading leaves `currentFolder` (and the catalog) as it was |

## Left out

- Rendering: the JSX of the page, the `FolderRow` and `FileRow` components, styling, icons, `Button` and `Link` (lines 24-48, 86-139) are presentation only.
- The `alert` shown by `handleUpload` (line 83) is a browser side effect; `HandleUpload` has an empty body.
- React mechanics: `useState` is the field `currentFolder`, and the `useMemo` cache of the breadcrumbs (lines 65, 80) is a plain recomputation by `GetBreadcrumbs`.
- `../lib/mock-data` is not part of this model; the catalog is a parameter of the class constructor and of every function.
- `File.size`, a JavaScript number only displayed, is a `real` that nothing inspects.
- GetBreadcrumbs: requires that the walk stops (`Terminates`); on a catalog with a cycle the source loops forever, which a terminating method cannot express, so that case is stated by `CycleDiverges` instead.
