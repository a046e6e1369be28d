# Contented path-based pipeline, modelled in Dafny

Contented turns a tree of Markdown files into typed, indexed records. Each
configured pipeline (`ContentedPipeline`, in
`packages/contented-pipeline/src/Pipeline.ts`) does three things for every
file it matches:

- It derives a stable identity: the hex SHA-256 of the joined root and file path.
- It derives a canonical site path by stripping ordering markers (`01-`,
  `(2)`, `[3]`, `:4:`) from every segment, slugifying them, and flattening
  `index` files onto their directory.
- It hands the resulting `FileIndex` to a processor, then applies the
  pipeline's optional `transform` hook to every record produced.

Pipelines may also sort file indexes in place with a user comparator. Their
constructor merges default `title` and `description` field declarations
beneath the user's own.

The example site's configuration
(`packages/contented-example/contented.config.js`) supplies two hooks:

- a `resolve` default for `title`;
- a `transform` that lifts everything under `/docs` to the site root.

This project models all of the above and proves, among other things:

- The marker matcher agrees with the regular expression in both directions.
- `split('/')` and `join('/')` are inverse.
- The `/`-segments of a computed path are exactly the slugified sections
  followed by the slugified name, and an `index` name drops the name. This
  holds when no slug contains `/` and a non-empty directory does not slugify
  to `""`.
- The in-place sort produces a permutation. With a comparator that is
  consistent on the values being sorted (section 23.1.3.30 of ECMA-262, 2024
  edition) the result is also sorted and stable, and every stable sort of the
  same input gives the same result.
- The example transform gives a file under `docs/` exactly the path it would
  have at the root, when `slugify("docs")` is `docs` and the rest of the
  directory does not slugify to `""`.

Files, one module each:

- `options.dfy` (`Options`): `Option`, where `None` stands for `undefined`.
- `text.dfy` (`Text`): `split`/`join` with a one-character separator, prefixes and suffixes.
- `pipeline_file.dfy` (`PipelineFile`):
  - field values and field declarations, with the `FileIndex` and
    `FileContent` records;
  - `FileContentRecord`, the mutable object that hooks update in place.
- `path_resolver.dfy` (`PathResolver`):
  - `replacePrefix`, `computeSections`, `computePath`, `getSanitizedPath`;
  - `computeFileId` and `newFileIndex`;
  - the foreign calls as a `Foreign` value.
- `array_sort.dfy` (`ArraySort`): `Array.prototype.sort` with a comparator, as
  an in-place stable insertion sort over an `array`.
- `pipeline.dfy` (`Pipeline`):
  - the configuration object (`PipelineConfig`) and the default field merge;
  - `ContentedPipeline` with its constructor, `process` and `sort`.
- `example_config.dfy` (`ExampleConfig`): the example `title.resolve` and
  `transform` hooks.

## Foreign calls and inputs

The model treats the following as inputs:

- `slugify`, SHA-256 hex digests, `path.join` and `path.parse` are the fields
  of a `PathResolver.Foreign` value. Each is an arbitrary deterministic
  function. The digest's result type is `Digest`: strings of 64 lowercase
  hexadecimal characters.
- The file's modification time (from `fs.stat`) is a parameter of
  `NewFileIndex` and `Process`.
- A subclass's `processFileIndex` is a function given to the
  `ContentedPipeline` constructor. It yields `None` where the JavaScript
  yields `undefined`.
- The `transform` hook and the `sort` comparator are optional function
  fields of `PipelineConfig`.

## Notes on `replacePrefix`

- `\(\d+\)` ends at the closing parenthesis, so `(2)-intro` becomes
  `-intro`, keeping the dash (`PathResolver.ReplacePrefixParenExample`).
- Each call strips one marker. Path derivation is therefore not idempotent
  on segments with several markers: `1-2-x` becomes `2-x`, and a second call
  gives `x` (`PathResolver.ReplacePrefixOnceExample`,
  `PathResolver.ReplacePrefixTwice`).

## Model

| member | source | states |
|---|---|---|
| PathResolver.MarkerLength | packages/contented-pipeline/src/Pipeline.ts:125 | the scanned marker length, when there is one, delimits a prefix in the language of the first group `:N:`, `(N)`, `[N]` or `N-` |
| PathResolver.MarkerLengthComplete | packages/contented-pipeline/src/Pipeline.ts:125 | conversely, any prefix in that language is the one the scan finds |
| PathResolver.ReplacePrefix | packages/contented-pipeline/src/Pipeline.ts:124-130 | the result is always a suffix of the segment; when it differs, the whole pattern matches with the marker ending where the result begins |
| PathResolver.ReplacePrefixStrips | packages/contented-pipeline/src/Pipeline.ts:125-128 | whenever the pattern matches at some split, the result is the second group |
| PathResolver.ReplacePrefixUnchanged | packages/contented-pipeline/src/Pipeline.ts:124-130 | the segment is kept exactly when the pattern matches at no split |
| PathResolver.DashMarkerStripped | packages/contented-pipeline/src/Pipeline.ts:125-128 | digits and `-` followed by at least one character (no line terminator) leave that rest |
| PathResolver.BracketMarkerStripped | packages/contented-pipeline/src/Pipeline.ts:125-128 | `:N:`, `(N)` or `[N]` followed by such a rest leaves the rest |
| PathResolver.NoMarkerKept | packages/contented-pipeline/src/Pipeline.ts:129 | a segment not starting with `:`, `(`, `[` or a digit is returned unchanged |
| PathResolver.BareMarkerKept | packages/contented-pipeline/src/Pipeline.ts:125-129 | a marker with nothing after it is returned unchanged |
| PathResolver.ReplacePrefixParenExample | packages/contented-pipeline/src/Pipeline.ts:125-128 | `(2)-intro` becomes `-intro` |
| PathResolver.ReplacePrefixBracketExample | packages/contented-pipeline/src/Pipeline.ts:125-128 | `[3]notes` becomes `notes` |
| PathResolver.ReplacePrefixColonExample | packages/contented-pipeline/src/Pipeline.ts:125-128 | `:4:topic` becomes `topic` |
| PathResolver.ReplacePrefixDashExample | packages/contented-pipeline/src/Pipeline.ts:125-128 | `01-guide` becomes `guide` |
| PathResolver.ReplacePrefixOnceExample | packages/contented-pipeline/src/Pipeline.ts:125-128 | only one marker is stripped: `1-2-x` becomes `2-x` |
| PathResolver.ReplacePrefixTwice | packages/contented-pipeline/src/Pipeline.ts:124-130 | a second call strips the next marker: `1-2-x` reaches `x` only after two calls |
| PathResolver.ReplacePrefixKeeps | packages/contented-pipeline/src/Pipeline.ts:129 | `1-`, `..` and `guide` are kept |
| PathResolver.ComputeSections | packages/contented-pipeline/src/Pipeline.ts:116-122 | an empty directory has no sections; otherwise there is one section per `/`-piece, in order, each the marker-stripped piece |
| PathResolver.SectionCount | packages/contented-pipeline/src/Pipeline.ts:121 | a non-empty directory has one more section than it has `/` |
| PathResolver.SectionsOfDirectory | packages/contented-pipeline/src/Pipeline.ts:116-122 | a directory built by joining `/`-free segments has exactly those segments, marker-stripped, as sections, each a suffix of its segment |
| PathResolver.SlugSegments | packages/contented-pipeline/src/Pipeline.ts:99-102 | one path segment per section, `..` kept verbatim and every other section slugified |
| PathResolver.ComputePath | packages/contented-pipeline/src/Pipeline.ts:98-114 | the path always starts with the slugified directory; an `index` name yields the directory alone; any other name ends the path, joined to a non-empty directory by one `/` and to an empty one by nothing |
| PathResolver.ComputePathIndex | packages/contented-pipeline/src/Pipeline.ts:104-107 | a name slugifying to `index` yields the directory alone, `""` without sections |
| PathResolver.ComputePathRootFile | packages/contented-pipeline/src/Pipeline.ts:109-111 | any other name without sections yields the slugified name |
| PathResolver.ComputePathSegments | packages/contented-pipeline/src/Pipeline.ts:98-114 | when no section slug and no name slug contains `/`, and the sections are empty or their joined slugs are not `""`, the `/`-pieces of the path are the slugified sections, followed by the slugified name unless it is `index` (an `index` name with no sections yields `""`, whose pieces are not stated) |
| PathResolver.IndexFlatteningExample | packages/contented-pipeline/src/Pipeline.ts:98-114 | when slugify leaves `guide`, `index` and `intro` unchanged, `guide/index` flattens to `guide`, while `guide/intro` stays `guide/intro` |
| PathResolver.GetSanitizedPath | packages/contented-pipeline/src/Pipeline.ts:92-96 | the sanitized path starts with the slugified directory of the file and ends with its slugified name unless that is `index`; a root-level file gets its slugified name, or `""` for `index` |
| PathResolver.ComputeFileId | packages/contented-pipeline/src/Pipeline.ts:132-134 | the identity is a 64-character lowercase hex digest of the joined path |
| PathResolver.NewFileIndex | packages/contented-pipeline/src/Pipeline.ts:73-86 | id is the digest of `join(rootPath, file)`; type and date are passed through; sections are those of `parse(file)`; fields are empty; the path is `/` followed by the sanitized path |
| PathResolver.RootIndexPath | packages/contented-pipeline/src/Pipeline.ts:81 | a root-level `index` file gets the path `/` |
| PathResolver.IdentityByLocation | packages/contented-pipeline/src/Pipeline.ts:74-79 | files with the same joined path get the same id, whatever their type, root, name or date |
| Text.JoinEnds | packages/contented-pipeline/src/Pipeline.ts:103 | `parts.join(sep)` is `""` for no parts; otherwise it starts with the first part and ends with the last |
| Text.Split | packages/contented-pipeline/src/Pipeline.ts:121 | `split` always yields at least one piece |
| Text.SplitCount | packages/contented-pipeline/src/Pipeline.ts:121 | there is one piece more than there are separators |
| Text.SplitPiecesFree | packages/contented-pipeline/src/Pipeline.ts:121 | no piece contains the separator |
| Text.JoinSplit | packages/contented-pipeline/src/Pipeline.ts:121 | joining the pieces with the separator gives back the string |
| Text.SplitJoin | packages/contented-pipeline/src/Pipeline.ts:99-103 | splitting a join of separator-free parts gives back the parts |
| Text.JoinSnoc | packages/contented-pipeline/src/Pipeline.ts:103-113 | joining one more part appends the separator and that part |
| ArraySort.Antisymmetric | packages/contented-pipeline/src/Pipeline.ts:22 | a comparator consistent on a set of values says `a < b` exactly when it says `b > a`, for `a` and `b` in that set |
| ArraySort.NotAfterTransitive | packages/contented-pipeline/src/Pipeline.ts:22 | for a comparator consistent on a set of values, "not after" is transitive on that set |
| ArraySort.InsertIntoPrefix | packages/contented-pipeline/src/Pipeline.ts:70 | one pass of the in-place sort inserts the next element into the sorted prefix and leaves the rest of the array alone |
| ArraySort.SortInPlace | packages/contented-pipeline/src/Pipeline.ts:70 | the array is rearranged in place into the insertion-sorted sequence of its old contents |
| ArraySort.InsertionSortedPermutes | packages/contented-pipeline/src/Pipeline.ts:70 | for any comparator, the sort yields a permutation of its input |
| ArraySort.InsertionSortedSorted | packages/contented-pipeline/src/Pipeline.ts:70 | for a comparator consistent on the values of the input, every element of the result is not after every later one |
| ArraySort.InsertionSortedStable | packages/contented-pipeline/src/Pipeline.ts:70 | for a comparator consistent on a set of values holding every input element and `e`, the elements comparing equal to `e` keep their relative order |
| ArraySort.InsertionSortedIsStableSort | packages/contented-pipeline/src/Pipeline.ts:70 | for a comparator consistent on the values of the input, the result is a sorted permutation in which each class of equal input elements keeps its order |
| ArraySort.StableSortUnique | packages/contented-pipeline/src/Pipeline.ts:70 | any two stable sorts of the same input, under a comparator consistent on its values, are equal |
| Pipeline.PipelineConfig.constructor | packages/contented-pipeline/src/Pipeline.ts:10-23 | a configuration holds the given type, patterns, field declarations and optional hooks |
| Pipeline.WithDefaultFields | packages/contented-pipeline/src/Pipeline.ts:31-35 | the merge always declares `title` and `description`, keeps every user declaration as given, uses the default only for keys the user left undeclared, and adds no other key |
| Pipeline.WithDefaultFieldsIdempotent | packages/contented-pipeline/src/Pipeline.ts:29-36 | merging the defaults into an already merged configuration changes nothing |
| Pipeline.ContentedPipeline.constructor | packages/contented-pipeline/src/Pipeline.ts:29-36 | construction stores its arguments and replaces the shared configuration's fields with the merge |
| Pipeline.ContentedPipeline.Process | packages/contented-pipeline/src/Pipeline.ts:48-58 | no records when the processor yields none; the processor's records as they are without a transform; otherwise as many records as the processor gave, the i-th transformed from the i-th |
| Pipeline.ContentedPipeline.Sort | packages/contented-pipeline/src/Pipeline.ts:66-71 | returns the same array, always a permutation of its old contents; unchanged without a comparator; otherwise sorted in place by insertion, and a stable sort of the old contents when the comparator is consistent on the values in the array |
| ExampleConfig.TitleResolve | packages/contented-example/contented.config.js:20 | `undefined` and `null` resolve to `'Contented'`, any other value to itself, so the result is never nullish |
| ExampleConfig.TitleResolveIdempotent | packages/contented-example/contented.config.js:20 | resolving a resolved title changes nothing |
| ExampleConfig.DocFieldsMerged | packages/contented-example/contented.config.js:16-25 | the default merge leaves the example's declarations as they are, so `title` stays required |
| ExampleConfig.RewriteDocsPrefix | packages/contented-example/contented.config.js:27 | the path changes exactly when it starts with `/docs`, and then becomes `/` followed by a suffix of it, with `/docs/` or `/docs` removed |
| ExampleConfig.RewriteDocsSlash | packages/contented-example/contented.config.js:27 | `/docs/` followed by anything becomes `/` followed by the same |
| ExampleConfig.RewriteDocsBare | packages/contented-example/contented.config.js:27 | `/docs` followed by anything not starting with `/` becomes `/` followed by the same |
| ExampleConfig.RewriteDocsExamples | packages/contented-example/contented.config.js:27 | `/docs/guide` becomes `/guide` and `/docs` becomes `/` |
| ExampleConfig.RewriteDocsNotSegmentAware | packages/contented-example/contented.config.js:27 | `/docsx` becomes `/x` |
| ExampleConfig.RewriteDocsOnce | packages/contented-example/contented.config.js:27 | only one prefix is rewritten: `/docs/docs/a` becomes `/docs/a` |
| ExampleConfig.RewriteDocsKeeps | packages/contented-example/contented.config.js:27 | `/guide` is kept |
| ExampleConfig.SliceFrom | packages/contented-example/contented.config.js:28 | `slice(start)` keeps the elements from `start` on, in order, and is empty past the end |
| ExampleConfig.DocTransformSections | packages/contented-example/contented.config.js:28 | the sections shrink by one when there are any, and an empty list stays empty |
| ExampleConfig.DocTransform | packages/contented-example/contented.config.js:26-30 | the path is rewritten, the first section is dropped, and id, type, date, fields and body are unchanged |
| ExampleConfig.TransformRecord | packages/contented-example/contented.config.js:26-30 | the hook updates the record in place in just that way and returns the same object |
| ExampleConfig.DocsTreeLifted | packages/contented-example/contented.config.js:27-28 | when `slugify("docs")` is `docs` and the rest of the directory is empty or does not slugify to `""`, a file under `docs` gets, after the hook, the path and sections it would have at the root |
| ExampleConfig.DocsPathLifted | packages/contented-example/contented.config.js:27 | under the same conditions, rewriting the path of a file under `docs` gives its path at the root |
| ExampleConfig.DocsPath | packages/contented-pipeline/src/Pipeline.ts:98-114 | under the same conditions, the path of a file under `docs` is `docs` for a top-level `index` and otherwise `docs/` followed by its path at the root |
| ExampleConfig.DocProcessKeepsIdentity | packages/contented-example/contented.config.js:26-30 | processing through the example pipeline keeps each record's id, type, date, fields and body and rewrites only its path and sections |

## Left out

- `computeModifiedDate` (Pipeline.ts:136-139) reads `fs.stat`, which is I/O.
  The timestamp is an input, and a failing `stat` (a rejected promise) is
  not modelled.
- `async`, promises and `Promise.all` are not modelled. `process` is a
  sequential order-preserving map, which is what `Promise.all` of a `map`
  returns.
- The empty `init` hook and the `type` getter are not modelled. The getter is
  inlined as `pipeline.typeName`.
- The internals of `slugify`, SHA-256, `path.join` and `path.parse` are not
  modelled; they are arbitrary functions. Slug idempotence and hash
  collision-freedom are not claimed, and nothing in `Pipeline.ts` establishes them.
- Choosing a processor (`'md'`, `'jest-md'` or an imported class) is not
  modelled, nor is the markdown processing behind `processFileIndex`. Both
  happen outside `Pipeline.ts`.
- `PipelineFile.ts` and `PipelineField.ts` are not part of this model. The
  record shapes follow the object literal in `newFileIndex` and the
  declarations in the example configuration. Field values have no objects,
  and `required` defaults to false when absent.
- Field validation is not modelled. Nothing in `Pipeline.ts` or
  `contented.config.js` checks `required` or calls `resolve`.
- Pipeline.WithDefaultFields: a user declaration explicitly set to
  `undefined` would overwrite a default in JavaScript. Declarations here are
  never `undefined`.
- Object key order of the merged `fields` is not modelled, because maps have
  no order.
- Pipeline.ContentedPipeline.Sort: for a comparator that is not consistent on the values in the array,
  ECMA-262 leaves the order implementation-defined. The model fixes one order
  (insertion sort) and promises only a permutation. `SortCompare`'s handling
  of `undefined` elements and of `NaN` or non-integer comparator results is
  not modelled: numbers here are integers.
- Pipeline.ContentedPipeline.Process: the transform is a function on record
  values. A JavaScript transform that mutates a record shared elsewhere
  (aliasing) is modelled only for the example hook, by
  `ExampleConfig.TransformRecord` on a `FileContentRecord`.
- JavaScript numbers are floating point. Dates and comparator results are
  unbounded integers here.
- The `pattern` field is stored but not used, because file matching happens
  outside `Pipeline.ts`.
