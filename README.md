# Post indexing pipeline of a static blog, in Dafny

This project models `lib/posts.js`, the part of a small Next.js blog that
turns a directory of Markdown files into data for pages:

- a post id is derived from a file name by removing one trailing `.md`
  (`postIdFromFileName`), and a file name from an id by appending `.md`
  (`getPostData`);
- `getPostIds` maps every directory entry to a routing descriptor
  `{ params: { id } }`;
- `postDataFromFileName` reads a file, parses its frontmatter, renders its
  Markdown body to HTML and builds the record `{ id, contentHtml, ...frontmatter }`;
- `getSortedPosts` builds the record of every directory entry, fails as a
  whole if any of them fails, and orders the records with lodash
  `_sortBy(posts, ["date", "title"])`.

The model is functional, like the source. The directory listing is a
`seq<string>` and the file contents a `map<string, string>`, both passed
in. The frontmatter parser (gray-matter), the Markdown renderer (remark with
remark-prism and remark-html) and the comparison lodash applies to two
present property values are bundled in a `Libraries` value as functions; the
parser and the renderer may fail (`None`). Record values are
`Value<Y> = Str(string) | Other(Y)`: strings, or any other value the
frontmatter parser yields, left abstract.

Modules:

- `Wrappers` (`wrappers.dfy`): `Option` and `Result`.
- `Compare` (`compare.dfy`): three-way comparisons (`Less | Equal | Greater`,
  the shape of lodash's `-1 | 0 | 1`), total preorders, and the combinators
  sortBy's comparator is built from: a missing key sorts last, criteria are
  compared in turn, elements are compared by a key.
- `Sorting` (`sort_by.dfy`): lodash `sortBy`. Each element is paired with its
  input position, the pairs are ordered by the criteria and then by position
  (lodash's `compareMultiple` ends with `object.index - other.index`), and the
  elements are read back. The pairs are sorted by insertion. When the value
  comparison is a total preorder, the position tie-break makes the order on
  pairs strict, and then any correct sorting algorithm gives the same result
  (`StrictOrderIsUnique`).
- `Posts` (`posts.dfy`): the functions of `lib/posts.js` and what they promise.

The regular expression `/\.md$/` is modelled as a search: `FirstMatch` finds
the leftmost position where the literal `.md` is followed by the end of the
input, and `PostIdFromFileName` replaces that match with the empty string, as
`String.prototype.replace` with a non-global expression does. That `$` has no
multiline flag, so it matches only at the very end.

Policy for a missing sort key: a record without `date` (or `title`) sorts
after every record that has one. lodash places `undefined` after every value
except `NaN`; the model has no `NaN` (see "Left out"). The ordering lemmas
assume the value comparison is a total preorder.

Behaviour of the code that the model keeps:

- The code renders the Markdown body to HTML for every record, in the listing
  too (`postDataFromFileName` is the only way a record is built).
- A directory entry not ending in `.md` is neither skipped nor failed on:
  `getPostIds` lists it unchanged, while `getSortedPosts` reads the file
  `entry + ".md"` (`PostForEntry`, `EntryFileLookedUp`).
- Titles and dates go through the same value comparison, which the model
  leaves abstract; nothing compares titles as plain strings.

## Model

| member | source | states |
|---|---|---|
| `Posts.PostIdFromFileName` | lib/posts.js:39-41 | the id is the file name itself or the file name with a final `.md` removed; nothing else is removed |
| `Posts.FileNameFromId` | lib/posts.js:35-37 | the file name for an id ends in `.md` and starts with the id, with nothing in between |
| `Posts.FirstMatch` | lib/posts.js:40 | the position found is a match of `\.md$` and no earlier position from the start of the search matches; no result means no position matches |
| `Posts.StripsOneTrailingExtension` | lib/posts.js:39-41 | a name ending in `.md` is its id followed by `.md`; any other name is its own id |
| `Posts.IdRoundTrip` | lib/posts.js:35-41 | deriving the id of the file name `${id}.md` gives back `id`, for every string |
| `Posts.FileNameRoundTrip` | lib/posts.js:35-41 | a file name is recovered from its id by appending `.md` exactly when it ends in `.md` |
| `Posts.NotIdempotent` | lib/posts.js:39-41 | only one extension is removed: `a.md.md` gives `a.md`, which gives `a` |
| `Posts.DerivingTwice` | lib/posts.js:39-41 | deriving an id from an id changes it again exactly when the file name ends in `.md.md` |
| `Posts.AssembleRecord` | lib/posts.js:54-58 | the record has the frontmatter keys plus `id` and `contentHtml`; every frontmatter field keeps its value; the derived `id` and `contentHtml` are there only when the frontmatter does not set them |
| `Posts.PostDataFromFileName` | lib/posts.js:45-58 | a missing file fails with not-found, a header the parser rejects with a parse error, a body the renderer rejects with a render error, each naming the file; otherwise the record is assembled from the derived id, the rendered HTML and the frontmatter |
| `Posts.GetPostData` | lib/posts.js:35-37 | reads exactly `${id}.md`: the same three failures naming that file, and on success the record assembled from the requested id itself, the rendered HTML and the frontmatter |
| `Posts.GetPostDataReadsIdFile` | lib/posts.js:35-58 | getPostData succeeds exactly when `${id}.md` exists, parses and renders; then every frontmatter field is in the record, and the record's `id` is the requested id and its `contentHtml` the rendered body unless the frontmatter sets them |
| `Posts.PostForEntry` | lib/posts.js:15 | the listing reads a directory entry itself when it ends in `.md`, and the entry with `.md` appended otherwise |
| `Posts.GetPostIds` | lib/posts.js:24-33 | one descriptor per directory entry, in directory order, whose id is the entry's derived id |
| `Posts.ReadPosts` | lib/posts.js:12-17 | succeeds exactly when every entry's record can be built, and then holds those records one per entry in directory order; a failure is the error of some entry |
| `Posts.All` | lib/posts.js:13-17 | `Promise.all` over the mapped entries: succeeds exactly when every element's read succeeds, then holds their results one per element in order; a failure is the error of some element |
| `Posts.GetSortedPosts` | lib/posts.js:11-20 | fails exactly when some entry fails, with that entry's error; otherwise returns as many records as there are entries, exactly the entries' records, ordered by date and then title whenever the value comparison is a total preorder |
| `Posts.ByDateThenTitle` | lib/posts.js:19 | two records are compared by date, missing dates last, and records with equal dates by title, missing titles last |
| `Posts.ByDateThenTitlePreorder` | lib/posts.js:19 | the date-then-title order, with missing keys last, is a total preorder whenever the value comparison is |
| `Posts.SortedPostsOrdered` | lib/posts.js:19 | sorting the records gives a sequence non-decreasing by date, non-decreasing by title among equal dates, with records lacking a key after those having it |
| `Posts.SortedPostsStable` | lib/posts.js:19 | each sorted record is the record at a distinct input position, and records with the same date and the same title keep their input order |
| `Posts.SortedListingStable` | lib/posts.js:11-20 | each post of the listing is the record of a distinct directory entry, and posts with the same date and title appear in the order of their entries in the directory |
| `Posts.EntryIdIsRoutedId` | lib/posts.js:15-58 | the record built for a directory entry has an `id`: the id getPostIds routes for that entry, or the frontmatter's own `id` when it sets one (`CarriesRoutedId`) |
| `Posts.ListedIdIsRoutedId` | lib/posts.js:11-58 | each listed post's `id` is the route getPostIds lists for the entry it came from, unless that entry's frontmatter sets its own `id`, whose value is then what the listing carries |
| `Posts.EntryFileLookedUp` | lib/posts.js:15-40 | for an entry ending in `.md` the listing reads that file and the routed id maps back to it; for any other entry getPostIds lists it unchanged, the listing reads `entry.md`, and that entry fails with not-found when `entry.md` is absent |
| `Sorting.InsertionSort` | lib/posts.js:19 | the sorted sequence holds the same elements with the same multiplicities |
| `Sorting.SortBy` | lib/posts.js:19 | sortBy returns as many elements as it is given, and the same elements with the same multiplicities |
| `Sorting.SortByOrigins` | lib/posts.js:19 | every output element is the input element at its recorded input position |
| `Sorting.OriginsDistinct` | lib/posts.js:19 | no two output positions come from the same input position |
| `Sorting.SortByOrderedAndStable` | lib/posts.js:19 | the output is non-decreasing under the criteria, and elements the criteria tie keep their input order |
| `Sorting.StrictOrderIsUnique` | lib/posts.js:19 | two strictly ordered arrangements of the same elements are equal, so the result does not depend on the sorting algorithm |
| `Sorting.SortedEntriesStrict` | lib/posts.js:19 | with the position tie-break, the sorted position-element pairs are strictly increasing |
| `Compare.MissingLastPreorder` | lib/posts.js:19 | ordering absent keys after present ones keeps a total preorder |
| `Compare.LexPreorder` | lib/posts.js:19 | comparing by one criterion and then another keeps a total preorder |

## Left out

- File-system and path plumbing (`fs.readdirSync`, `fs.readFileSync`, `path.join`, `process.cwd()`): replaced by the listing and the contents map passed in; a missing posts directory, on which `readdirSync` throws, is not modelled.
- gray-matter and the remark, remark-prism and remark-html pipeline: foreign libraries, modelled as functions that may fail; their output is not modelled.
- `async` and `Promise.all`: the records are built in directory order. When several entries fail, JavaScript reports whichever rejection settles first; the model reports the first failing entry in directory order, and its contracts promise only that the error is some failing entry's.
- How lodash compares values of mixed types (YAML dates against strings, `null`, symbols, `NaN`): the value comparison is a parameter, assumed a total preorder by the ordering lemmas. An absent key sorts after every present value; lodash puts a `NaN` key after an absent one, which the model cannot express.
- The sorting algorithm lodash delegates to: the model sorts by insertion, and `Sorting.StrictOrderIsUnique` shows every correct algorithm gives the same order when the value comparison is a total preorder; for a comparison that is not, the order is not modelled.
- `pages/index.js`, `pages/posts/[id].js`, `pages/_app.js`, `pages/_document.js`, `pages/posts/first-post.js` and `components/Layout.js`: page components and framework wiring that only forward the pipeline's results.
