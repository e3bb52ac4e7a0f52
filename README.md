# PDF merger model

This project models `ts_pdf_merger`, a command-line tool. It takes every `.pdf`
file in the current directory and merges them into one document,
`merged-pdfs.pdf`. A `PdfMerger` object loads each file by draining a read
stream and collects the bytes as a `(filename, content)` record. `mergePdfFiles`
rejects an empty collection. Otherwise it does the following:

- sorts the collection by filename;
- parses every file in that order;
- copies all of each file's pages, in stored order, into one new document;
- only after the last file serializes that document and writes it to the output path.

A file that does not parse aborts the merge before anything is written. The
directory entry point does the following:

- filters the listing down to the names ending in `.pdf`;
- loads those files concurrently;
- merges them;
- reports any failure instead of raising it.

The model is split by concern:

- `PdfTypes`: records, results, streams, pages and the two merge errors.
- `FileNames`: the filename order used by the sort, and the `.pdf` suffix filter.
- `Sorting`: the stable sort by filename as a function, `SortByName`, with its
  permutation, ordering and uniqueness properties.
- `Pages`: copying a document's pages, the page fold
  `ConcatPages`, and `MergeSpec`, the outcome of a whole merge.
- `Collection`: the collector as values. It covers stream concatenation, which
  names are loaded, what each becomes, and what the directory merge writes.
- `Merger`: the stateful part.
  - `PdfMerger` is a class with its `pdfFiles` sequence.
  - The in-place sort is an insertion sort proved equal to `SortByName`.
  - The output document and the file system are classes.
  - The directory merge is a method that drives them.

The PDF library is a parameter:

- `parse` stands for `PDFDocument.load` followed by `getPageIndices`. It yields
  the document's pages or an error message.
- `serialize` stands for `save`.
- The directory listing, each file's stream and the order in which concurrent
  loads finish are inputs.

## Model

| member | source | states |
|---|---|---|
| Collection.Concat | src/index.ts:19 | `Buffer.concat`: the chunks' bytes one after the other (stated by `ConcatAppend`, `ConcatLength` and `ConcatChunkAt`) |
| Collection.CollectedFile | src/index.ts:64-65 | the record a cleanly read file becomes: its name and the concatenation of its stream's chunks (stated by `Merger.LoadAll` and `CollectedCount`) |
| Collection.Collected | src/index.ts:62-67 | the records of a sequence of names, in that order (stated by `CollectedAt`, `CollectedCount` and `CollectedPermutation`) |
| Collection.CollectedAt | src/index.ts:62-67 | one record per name, entry `i` being the record of name `i` |
| Collection.DirectoryMergeSpec | src/index.ts:57-74 | the outcome of a directory merge: nothing when a read or the merge fails, otherwise the merged pages (stated by `DirectoryMergeWritesIff`) |
| FileNames.EndsWith | src/index.ts:61 | `endsWith`: the last characters of the name are the suffix (stated by `PdfFileNames` and `OutputFileIsCollected`) |
| FileNames.NameLe | src/index.ts:33 | the comparator: lexicographic order on characters, a prefix first (stated by the four order lemmas below) |
| FileNames.NameLt | src/index.ts:33 | `a.localeCompare(b) < 0`, the strict order the sort moves files by (stated by `NameLtIsLe`) |
| Sorting.Insert | src/index.ts:33 | one step of the stable sort (stated by `InsertPermutes`, `InsertSorted` and `InsertNamed`) |
| Sorting.SortByName | src/index.ts:33 | the stable sort by filename (stated by `SortByNamePermutes`, `SortByNameSorted` and `SortByNameStable`) |
| Pages.CopyPages | src/index.ts:41 | `copyPages`: the pages at the given indices, in that order (stated by `CopyAllPages`) |
| Pages.ConcatPages | src/index.ts:36-45 | the merge loop as a fold that stops at the first file that does not parse (stated by `ConcatPagesSucceeds`, `ConcatPagesFailsAtFirstBadFile` and `ConcatPagesSucceedsIff`) |
| Pages.MergeSpec | src/index.ts:27-45 | the outcome of `mergePdfFiles`: the empty-collection error, or the fold over the sorted files (stated by `MergeProducesAllPagesInNameOrder`, `MergeFailsIff` and `MergeOfNothingFails`) |
| PdfTypes.MergeError.Message | src/index.ts:30 | the message each merge error carries; for the empty collection "No PDF files to merge" (stated by `Pages.MergeOfNothingFails`) |
| Merger.PdfMerger.constructor | src/index.ts:10-11 | a new merger starts with no collected files |
| Merger.PdfMerger.LoadPdfFile | src/index.ts:13-25 | a stream that ends cleanly appends exactly one record, `(filename, all chunks concatenated in arrival order)`, after the existing ones, and reports success; a stream that ends in an error leaves the collection unchanged and raises that error |
| Collection.ConcatAppend | src/index.ts:19 | concatenating two runs of chunks concatenates their bytes, and their byte counts add up |
| Collection.ConcatLength | src/index.ts:19 | the concatenated content is exactly as long as all chunks together |
| Collection.ConcatChunkAt | src/index.ts:15-19 | byte `j` of chunk `k` sits in the content right after the bytes of every earlier chunk, so arrival order is kept |
| Merger.PdfMerger.SortByFilename | src/index.ts:33 | the in-place sort leaves the collection equal to `SortByName` of what it was, so it is a permutation, ordered and stable (see `SortByNamePermutes`, `SortByNameSorted` and `SortByNameStable`) |
| Merger.PdfMerger.SinkIntoPrefix | src/index.ts:33 | one insertion pass moves the file at position `i` to where the stable insertion puts it and leaves the files after it untouched |
| Sorting.InsertPermutes | src/index.ts:33 | inserting a file adds exactly that file |
| Sorting.InsertSorted | src/index.ts:33 | inserting into an ordered sequence keeps it ordered |
| Sorting.SortByNamePermutes | src/index.ts:33 | the sorted collection holds the same files, each as often as before |
| Sorting.SortByNameSorted | src/index.ts:33 | the sorted collection is ordered by filename |
| Sorting.SortByNameOfSorted | src/index.ts:33 | an already ordered collection is left exactly as it is |
| Sorting.SortByNameStable | src/index.ts:33 | the sort is stable: for every name, the files with that name come out in the order they arrived in |
| Sorting.InsertNamed | src/index.ts:33 | inserting a file puts it after every file of the same name and keeps those files' order |
| Sorting.SortByNameIdempotent | src/index.ts:33 | sorting twice gives what sorting once gives |
| Sorting.PermutationKeepsNamesDistinct | src/index.ts:33 | reordering a collection with distinct filenames keeps them distinct |
| Sorting.SortedUnique | src/index.ts:33 | with distinct filenames, two ordered arrangements of the same files are equal |
| Sorting.SortIgnoresArrivalOrder | src/index.ts:33 | with distinct filenames, every arrival order of the same files sorts to the same sequence |
| FileNames.NameLeReflexive | src/index.ts:33 | the filename comparator puts every name no later than itself |
| FileNames.NameLeTotal | src/index.ts:33 | the filename comparator orders every pair of names |
| FileNames.NameLeAntisymmetric | src/index.ts:33 | two names that each sort no later than the other are equal |
| FileNames.NameLeTransitive | src/index.ts:33 | the filename comparator is transitive |
| FileNames.NameLtIsLe | src/index.ts:33 | "sorts strictly before" implies "sorts no later" and distinct names |
| Merger.PdfDocument.Create | src/index.ts:34 | the new output document has no pages |
| Merger.PdfDocument.AddPage | src/index.ts:43 | the page goes at the end of the document and nothing else changes |
| Merger.AddPages | src/index.ts:42-44 | the copied pages are appended to the document in order |
| Pages.PageIndices | src/index.ts:40 | a document with `n` pages yields `n` indices, each a valid page index |
| Pages.CopyAllPages | src/index.ts:40-41 | copying every page index yields exactly the document's pages in stored order, none dropped or reordered |
| Pages.ConcatPagesStep | src/index.ts:36-45 | one pass of the merge loop appends the file's pages to the pages gathered so far, or ends with that file's parse error |
| Pages.FlattenAppend | src/index.ts:36-45 | the reference page sequence of two runs of files is the first run's pages followed by the second's |
| Pages.FlattenLength | src/index.ts:40-44 | the reference page sequence is as long as the sum of the files' page counts |
| Pages.TotalPageCountPermutation | src/index.ts:40-44 | the total page count does not depend on the order of the files |
| Pages.ConcatPagesSucceeds | src/index.ts:36-45 | when every file parses, the merge loop yields every file's pages, file after file, matching the independent head-first definition |
| Pages.ConcatPagesFailsAtFirstBadFile | src/index.ts:36-39 | the merge loop fails with the error of the first file that does not parse, whatever the later files hold |
| Pages.ConcatPagesFailureStops | src/index.ts:37-39 | once the loop has failed on a prefix, the files after it change nothing |
| Pages.ConcatPagesSucceedsIff | src/index.ts:36-45 | the merge loop succeeds exactly when every file parses |
| Pages.SortedAllParse | src/index.ts:33-39 | the sorted files all parse exactly when the collected files do |
| Pages.MergeProducesAllPagesInNameOrder | src/index.ts:33-45 | a non-empty merge in which every file parses yields all pages of all files in filename order, and as many pages as all inputs together |
| Pages.MergeOfNothingFails | src/index.ts:29-31 | merging an empty collection fails with "No PDF files to merge" |
| Pages.MergeFailsIff | src/index.ts:29-45 | a merge fails exactly when the collection is empty or some file does not parse |
| Pages.MergeReportsFirstBadFile | src/index.ts:33-39 | the reported error is that of the first file, in filename order, that does not parse |
| Pages.MergeSingleFile | src/index.ts:29-45 | merging one file yields exactly its pages, or its parse error |
| Pages.MergeIgnoresArrivalOrder | src/index.ts:33-45 | with distinct filenames, every arrival order of the same files merges to the same result |
| Pages.MergeIdempotent | src/index.ts:33-45 | merging the collection a merge left sorted gives the same result |
| Pages.ConcatTwo | src/index.ts:36-45 | with two parsing files, the first one's pages come first |
| Pages.TwoFilesInEitherOrder | src/index.ts:33-45 | two files with ordered names and pages `p1, p2` and `p3` merge to `p1, p2, p3` in either arrival order |
| Pages.TwoFilesSwapped | src/index.ts:33-45 | two files with different names merge alike whichever was loaded first |
| Pages.TwoFileExample | src/index.ts:33-45 | `a.pdf` with two pages and `b.pdf` with one merge to three pages, `a.pdf`'s first, whichever was loaded first |
| Merger.FileSystem.constructor | src/index.ts:48 | the file system starts with the given files |
| Merger.FileSystem.WriteFile | src/index.ts:48 | writing creates or replaces one file and changes no other |
| Merger.PdfMerger.MergePdfFiles | src/index.ts:27-54 | the collection ends sorted by filename; on success exactly one file, the output path, is written with the serialized merged pages that `MergeSpec` describes; on an empty collection or a parse error that error is raised and no file is written |
| FileNames.PdfFileNames | src/index.ts:61 | the filter keeps exactly the entries ending in `.pdf` and never adds any |
| FileNames.PdfFileNamesAppend | src/index.ts:61 | filtering a listing in two parts filters each part, keeping their order |
| FileNames.PdfFileNamesIdempotent | src/index.ts:61 | filtering an already filtered listing changes nothing |
| FileNames.PdfFileNamesDistinct | src/index.ts:60-61 | a listing without repeated names stays without repeated names after filtering |
| Collection.CollectedDistinct | src/index.ts:62-67 | distinct names are collected into records with distinct filenames |
| Collection.CollectedCount | src/index.ts:62-67 | a record occurs among the collected records as often as its name occurs among the loaded names |
| Collection.CollectedPermutation | src/index.ts:62-67 | loading the same names in another order collects the same records |
| Collection.CollectedInAnyOrder | src/index.ts:60-68 | whatever order the loads finish in, the merge result is the one the listing determines |
| Collection.DirectoryMergeWritesIff | src/index.ts:57-74 | the directory merge writes exactly when every `.pdf` entry reads cleanly, there is at least one, and every one parses; it then writes all their pages in filename order |
| Collection.OutputFileIsCollected | src/index.ts:61-68 | a `merged-pdfs.pdf` already in the listing, left by an earlier run, is itself collected as an input |
| Merger.LoadAll | src/index.ts:62-67 | the loads succeed exactly when every stream ends cleanly; then the merger holds the collected records in arrival order |
| Merger.MergePdfFilesInDirectory | src/index.ts:57-74 | the output file is written exactly when `DirectoryMergeSpec` yields pages, with those pages serialized; otherwise the file system is unchanged and the failure is reported, not raised |

## Left out

- Console output (`console.log` and `console.error`) is not modelled. Only the errors themselves are.
- `PDFDocument.load`, `getPageIndices`, `copyPages` and `save` belong to the PDF library. They are the parameters `parse` and `serialize`. Binary parsing, the `ignoreEncryption` option and resource copying are not modelled. A copied page is the same page value as the source page.
- A failure of `save` or `fs.writeFile` is not modelled. Both are taken to succeed.
- Merger.PdfMerger.MergePdfFiles: `serialize` depends on the pages only. The clock is not modelled. `PDFDocument.create` stamps creation and modification dates that `save` writes, so the real output bytes differ between runs. The model's equal outputs across runs and arrival orders hold for the pages, not for the bytes.
- Merger.PdfMerger.MergePdfFiles: a failure of `copyPages` is not modelled on its own. A document whose pages cannot be copied is modelled as one that `parse` rejects, with the same effect: the merge aborts before anything is written.
- Merger.PdfMerger.LoadPdfFile: the length limit of `Buffer.concat` is not modelled. Above `buffer.constants.MAX_LENGTH` the concatenation throws a `RangeError`, which the source re-raises. In the model a clean stream always loads.
- `fs.readdir(process.cwd())` becomes the `entries` input. `createReadStream` becomes the `open` input, which maps each name to its chunks and an optional terminal error.
- `localeCompare` is modelled as lexicographic order on characters (Unicode scalar values), a prefix first. Locale-specific collation is not captured. Under it, two different names never compare equal.
- Pages.MergeIgnoresArrivalOrder: holds for a comparator under which distinct names never tie. `localeCompare` returns 0 for distinct but canonically equivalent names, such as a precomposed `é` and `e` followed by a combining accent. For such a pair the stable sort keeps the order in which their loads finished, so the program's output can depend on arrival order. The model does not capture this.
- Collection.CollectedInAnyOrder: the same gap as `Pages.MergeIgnoresArrivalOrder`. Independence of arrival order is proved only for a comparator without ties between distinct names.
- Merger.MergePdfFilesInDirectory: the output is determined by the listing only under the same comparator assumption. With `localeCompare` ties between distinct names, the written bytes may depend on arrival order.
- `Array.prototype.sort` is modelled as a stable insertion sort rather than the engine's own algorithm. Two stable sorts under the same total order give the same result, so the outcome is the same.
- Concurrency is not modelled. The `Promise.all` loads become one sequence of loads in an `arrival` order, which is any permutation of the filtered names.
- Merger.LoadAll: after the first load that fails, the loads still in flight are not modelled. The content of the collection is then left unspecified, because the top level reports the failure and never merges.
- Merger.MergePdfFilesInDirectory: requires the listing to have no repeated names and `arrival` to be a permutation of the filtered names. A directory listing always meets both.
