# Speller repository of the Divvun Windows spell checker

This project models `src/speller_repository.rs` in Dafny. That file is the
part of the spell checker that finds dictionary archives on disk and maps
language tags to them. It has four parts:

- **Tag expansion.** `HARDCODED_TAG_TABLE` gives each of the five Sámi base
  tags (`se`, `sma`, `smn`, `sms`, `smj`) six regional aliases, Latin-script
  then plain, for Norway, Sweden and Finland. `resolve_local_name` turns a
  base identifier into its ordered tag list: the resolver's canonical tag
  (or the identifier itself), followed by the aliases from the table.
  Module `TagExpansion`, file `tag_expansion.dfy`.
- **Bundle discovery.** `find_speller_bundles` and its inner `visit_dirs`
  walk one root directory depth first. They collect every non-directory
  entry whose extension is exactly `zhfst` or `bhfst`. The walk stops at
  the first failure: a directory that cannot be listed, or an entry that
  cannot be read. The failure is only logged, and whatever was collected
  before it is returned. Modules `FileTree` (the tree and the rules for
  file names) and `BundleDiscovery`.
- **Sorting and de-duplication.** `res.sort(); res.dedup();` in
  `get_supported_languages`. Module `StringOrder`.
- **The repository.** `SpellerRepository` is a class holding the fixed
  list of root directories. Its three queries are `get_speller_archives`,
  `get_supported_languages` and `get_speller_archive`. Module
  `SpellerRepository`.

The filesystem is a value of type `FileSystem`: a map from each configured
root string to the tree it names. In that tree, a directory's listing may
fail (`Unreadable`), and so may a single entry (`BrokenEntry`). The locale
resolver `util::resolve_locale_name` is not part of this model. Every
operation that needs it takes it as a parameter of type `Resolver`.

The walk is specified against three independent definitions:

- `Files` lists every non-directory entry below a node, in listing order,
  and skips whatever cannot be read.
- `ReachesFile` is a predicate on relative paths that does not depend on
  traversal order.
- `Trace` is the full depth-first traversal in listing order. It records
  each file it reaches and each failure it meets as a `Step`, either
  `FileAt(path)` or `Failed`, and it skips nothing.

The proved results are:

- `WalkFollowsTrace` gives the walk's result on every tree. It is the
  bundle files of the trace up to its first failure. The walk reports
  success if and only if the trace holds no failure.
- `TraceFiles` shows that the trace reaches the same files as `Files`, in
  the same order. Hence the walk's result is always a prefix of the bundle
  files in `Files`, and it is all of them when nothing fails
  (`WalkIsPrefixOfBundles`).
- `FilesExactly` shows that a path is in `Files` if and only if
  `ReachesFile` holds for it.

A walk that skipped only a failing subtree would return the bundle files of
`Files`. `visit_dirs` does something else: it propagates the error with `?`
(lines 47, 48 and 51). So the first failure ends the whole walk of that
root, and `find_speller_bundles` keeps the partial result (lines 64-69).
`FailureAbandonsRest` shows that the two differ. Take a root whose first
entry is an unreadable sub-directory and whose second is a bundle file. The
walk returns nothing, while `Files` lists the bundle.

`DictsQueries` calls the three queries on one repository. Its single root,
`/dicts`, holds `se.zhfst` and `sma.bhfst`, and the resolver knows neither
`se` nor `sma`. The archives are both files, in listing order. The
supported languages are the fourteen tags of the two archives, in ascending
order. `se-NO` finds `se.zhfst`, and `xx` finds nothing.

## Model

| member | source | states |
|---|---|---|
| TagExpansion.RegionAliases | src/speller_repository.rs:12-15 | two aliases per region in region order: first `<tag>-Latn-<region>`, then `<tag>-<region>` |
| TagExpansion.RegionAliasesSpelled | src/speller_repository.rs:12-15 | a base tag's aliases for NO, SE, FI are exactly the six strings, in push order |
| TagExpansion.AliasTableShape | src/speller_repository.rs:7-20 | the table's keys are exactly se, sma, smn, sms, smj; each maps to its six aliases in order |
| TagExpansion.CanonicalTag | src/speller_repository.rs:25-29 | the first tag: the resolver's answer, or the identifier itself when the resolver has none; stated in `LocaleTagsShape` |
| TagExpansion.ExtraTags | src/speller_repository.rs:31-33 | the table's aliases for a key, none for a missing key; stated in `ExtraTagsShape` |
| TagExpansion.ExtraTagsShape | src/speller_repository.rs:31-33 | the table lookup yields the six aliases for a Sámi base tag and nothing for any other identifier |
| TagExpansion.LocaleTags | src/speller_repository.rs:22-36 | the canonical tag followed by the table's aliases; stated in `LocaleTagsShape` and `RegionTagsIncluded` |
| TagExpansion.LocaleTagsShape | src/speller_repository.rs:22-36 | the expansion is never empty; it starts with the resolver's tag, or the identifier when the resolver has none; it has 7 tags (the six aliases after the first) for a Sámi key and 1 otherwise; it is exactly `[b]` for an unknown, unresolved identifier |
| TagExpansion.RegionTagsIncluded | src/speller_repository.rs:22-36 | a Sámi base tag's expansion contains both the plain and the Latin-script tag for each of NO, SE, FI |
| TagExpansion.PushAll | src/speller_repository.rs:32 | pushing the aliases one by one leaves the old tags followed by all aliases in order |
| TagExpansion.ResolveLocalName | src/speller_repository.rs:22-36 | the pushes build exactly the ordered expansion: canonical tag first, then the table's aliases |
| FileTree.LastDot | src/speller_repository.rs:53 | the index found is a '.' with no '.' after it; none is found only when the name has no '.' |
| FileTree.Extension | src/speller_repository.rs:53 | the text after the last dot, none when the name has no dot or only a leading one; stated in `StemExtensionSplit` and `StemExtensionJoin` |
| FileTree.Stem | src/speller_repository.rs:93 | the name without its extension; stated in `StemExtensionSplit` and `StemExtensionJoin` |
| FileTree.FileName | src/speller_repository.rs:93 | `Path::file_name`: the last component of a path, none only for the empty path; stated through `ArchiveNameTags` |
| FileTree.FileStem | src/speller_repository.rs:107 | the stem of a path's last component, none only for the empty path, which no archive is (`ArchivesSound`: every archive has at least two components); stated through `ArchiveNameTags` for an archive in any directory |
| FileTree.StemExtensionSplit | src/speller_repository.rs:53 | when there is an extension, the name is a non-empty stem, a dot, and a dot-free extension; otherwise the stem is the whole name |
| FileTree.StemExtensionJoin | src/speller_repository.rs:53 | a non-empty stem joined by a dot to a dot-free extension splits back into exactly that stem and extension |
| FileTree.IsBundleName | src/speller_repository.rs:53-54 | the extension is exactly `zhfst` or `bhfst`, case-sensitive; stated by `BundleNameSuffix` as a suffix test |
| FileTree.BundleNameSuffix | src/speller_repository.rs:53-54 | a name passes the extension test iff it has more than six characters and ends in ".zhfst" or ".bhfst" (so ".zhfst" itself does not) |
| BundleDiscovery.Files | src/speller_repository.rs:45-62 | every listed file lies strictly below the starting path |
| BundleDiscovery.Walk | src/speller_repository.rs:45-62 | `visit_dirs` on one node, stopping at the first failure; stated in `WalkFollowsTrace`, `WalkIsPrefixOfBundles` and `WalkSound` |
| BundleDiscovery.WalkEntries | src/speller_repository.rs:47-59 | the loop over one listing, stopping at the first failure; stated in `WalkEntriesFollowsTrace` and `WalkEntriesIsPrefixOfBundles` |
| BundleDiscovery.FilesInMembership | src/speller_repository.rs:47-59 | a file is listed under a directory iff one of its entries contributes it |
| BundleDiscovery.FilesExactly | src/speller_repository.rs:45-62 | `dir + rel` is listed iff `rel` leads through listable directories to a non-directory entry |
| BundleDiscovery.EntryFilesExactly | src/speller_repository.rs:49-58 | the same for a single entry: it contributes `dir + rel` iff `rel` starts with its name and reaches a file |
| BundleDiscovery.Bundles | src/speller_repository.rs:53-56 | keeps exactly the paths with a bundle extension |
| BundleDiscovery.BundlesAppend | src/speller_repository.rs:53-56 | the filter distributes over concatenation |
| BundleDiscovery.WalkIsPrefixOfBundles | src/speller_repository.rs:45-62 | against the lenient reference `Files`: the walk's result is a prefix of the tree's bundle files, the walk completes iff nothing fails, and when it completes it has all of them |
| BundleDiscovery.WalkEntriesIsPrefixOfBundles | src/speller_repository.rs:47-59 | the same three facts for what remains of one listing |
| BundleDiscovery.FileEntryStep | src/speller_repository.rs:52-57 | a file entry ahead of the rest of a listing keeps the three facts |
| BundleDiscovery.DirEntryStep | src/speller_repository.rs:50-51 | a sub-directory ahead of the rest keeps the three facts, including when its failure stops the listing |
| BundleDiscovery.Trace | src/speller_repository.rs:45-62 | the full depth-first traversal in listing order, recording every file and every failure; stated in `TraceFiles` and `WalkFollowsTrace` |
| BundleDiscovery.TakeUntilFailed | src/speller_repository.rs:47-51 | the events before the first failure; stated in `TakeUntilFailedAppend` |
| BundleDiscovery.FilesOf | src/speller_repository.rs:53-55 | the files a trace reaches, in order; stated in `FilesOfAppend` and `TraceFiles` |
| BundleDiscovery.TakeUntilFailedAppend | src/speller_repository.rs:47-51 | a joined trace is cut inside its first part when that part fails, and after all of it otherwise |
| BundleDiscovery.FilesOfAppend | src/speller_repository.rs:53-55 | the files of a joined trace are the first part's followed by the second's |
| BundleDiscovery.TraceFiles | src/speller_repository.rs:45-62 | the full traversal reaches exactly the files of `Files`, in the same order |
| BundleDiscovery.TraceEntriesFiles | src/speller_repository.rs:47-59 | the same for one listing |
| BundleDiscovery.WalkFollowsTrace | src/speller_repository.rs:45-62 | the walk returns exactly the bundle files the full traversal meets before its first failure, and completes iff the traversal has no failure |
| BundleDiscovery.WalkEntriesFollowsTrace | src/speller_repository.rs:47-59 | the same for what remains of one listing |
| BundleDiscovery.FileTraceStep | src/speller_repository.rs:52-57 | a file entry ahead of the rest of a listing keeps the walk on its trace |
| BundleDiscovery.DirTraceStep | src/speller_repository.rs:50-51 | a sub-directory ahead of the rest keeps the walk on its trace, also when the sub-directory's failure stops the listing |
| BundleDiscovery.FailureAbandonsRest | src/speller_repository.rs:47-51 | an unreadable first sub-directory ends the walk, so the bundle file listed after it is not returned though `Files` lists it |
| BundleDiscovery.WalkCollectsBundleFiles | src/speller_repository.rs:45-62 | the walk collects `dir + rel` only if `rel` reaches a file and carries a bundle extension; when nothing fails it collects every such path |
| BundleDiscovery.WalkSound | src/speller_repository.rs:45-62 | every collected path is a listed file, lies strictly below `dir` and has a bundle extension |
| BundleDiscovery.VisitDirs | src/speller_repository.rs:45-62 | appends exactly the walk's findings to the accumulator; reports success exactly when the walk completed |
| BundleDiscovery.RootBundles | src/speller_repository.rs:42-70 | one root's findings, empty when the root does not exist; stated in `RootBundlesSound` and `FindSpellerBundles` |
| BundleDiscovery.FindSpellerBundles | src/speller_repository.rs:42-70 | returns the walk's findings for the root, partial on failure, empty when the root does not exist |
| StringOrder.Below | src/speller_repository.rs:98 | the lexicographic `String` order `res.sort()` uses; a strict total order by `BelowIrreflexive`, `BelowTransitive` and `BelowTotal` |
| StringOrder.BelowIrreflexive | src/speller_repository.rs:98 | no string sorts before itself |
| StringOrder.BelowTransitive | src/speller_repository.rs:98 | the string order is transitive |
| StringOrder.BelowTotal | src/speller_repository.rs:98 | any two strings are equal or one sorts before the other |
| StringOrder.BelowAsymmetric | src/speller_repository.rs:98 | two strings never sort before each other |
| StringOrder.AtMostTransitive | src/speller_repository.rs:98 | the non-strict order is transitive |
| StringOrder.BelowPrefixed | src/speller_repository.rs:98 | a common prefix keeps the order of two strings |
| StringOrder.Insert | src/speller_repository.rs:98 | inserting into a sorted sequence keeps it sorted and adds exactly the one element |
| StringOrder.SortStrings | src/speller_repository.rs:98 | the sort's result is ascending and a permutation of its input |
| StringOrder.Dedup | src/speller_repository.rs:99 | de-duplication keeps the same set of elements, never lengthens, keeps the last element, and leaves no two equal neighbours |
| StringOrder.DedupOfSorted | src/speller_repository.rs:98-99 | de-duplicating a sorted sequence leaves it strictly ascending |
| StringOrder.DedupAdjacent | src/speller_repository.rs:99 | the loop that drops an element equal to its predecessor computes exactly `Dedup` |
| StringOrder.StrictlySortedUnique | src/speller_repository.rs:98-99 | two strictly ascending sequences with the same elements are equal, so the query's result is fixed by its set of tags |
| StringOrder.ChainStrictlySorted | src/speller_repository.rs:98-99 | each element below its successor makes the whole sequence strictly ascending |
| SpellerRepository.ArchivesAppend | src/speller_repository.rs:77-85 | discovery over two lists of roots is discovery over the first followed by discovery over the second |
| SpellerRepository.Archives | src/speller_repository.rs:77-85 | every root's findings, in root order; stated in `ArchivesAppend`, `ArchivesMembership` and `ArchivesSound` |
| SpellerRepository.ArchivesMembership | src/speller_repository.rs:77-85 | a path is an archive iff one of the roots' walks found it |
| SpellerRepository.ArchivesSound | src/speller_repository.rs:77-85 | every archive has a bundle extension, starts with a configured root that exists, and is a file of that root's tree |
| SpellerRepository.RootBundlesSound | src/speller_repository.rs:82 | everything one root yields starts with that root, which exists, and is a bundle file of its tree |
| SpellerRepository.NoRootsNoArchives | src/speller_repository.rs:77-85 | when no configured root exists there are no archives |
| SpellerRepository.TagsOf | src/speller_repository.rs:106-108 | the expansion of an archive's stem, none without a stem; stated in `ArchiveNameTags` and `AliasedArchiveTags` |
| SpellerRepository.AllTags | src/speller_repository.rs:89-97 | every archive's tags, flattened in archive order; stated in `AllTagsMembership` |
| SpellerRepository.FlattenMembership | src/speller_repository.rs:96 | a tag is in the flattened lists iff it is in one of them |
| SpellerRepository.AllTagsMembership | src/speller_repository.rs:89-97 | a tag is collected iff some archive's expansion contains it |
| SpellerRepository.NoMatchIffUnsupported | src/speller_repository.rs:89-118 | no archive answers to a tag iff the tag is not among the collected tags |
| SpellerRepository.ArchiveTagSupported | src/speller_repository.rs:92-97 | every archive contributes its canonical tag |
| SpellerRepository.TwoBundleRoot | src/speller_repository.rs:42-70 | a root listing two bundle files yields both, in listing order |
| SpellerRepository.AllTagsOfTwo | src/speller_repository.rs:89-97 | two archives' tags are the first's followed by the second's |
| SpellerRepository.UnresolvedAliasedTags | src/speller_repository.rs:92-95 | an archive named after a Sámi base tag the resolver does not know, in any directory, answers to that tag and its six aliases, in table order |
| SpellerRepository.DictsArchives | src/speller_repository.rs:77-85 | the root "/dicts" holding se.zhfst and sma.bhfst yields both archives, in that order |
| SpellerRepository.DictsSeTags | src/speller_repository.rs:92-95 | se.zhfst answers to "se" and its six aliases when the resolver does not know "se" |
| SpellerRepository.DictsSmaTags | src/speller_repository.rs:92-95 | sma.bhfst answers to "sma" and its six aliases when the resolver does not know "sma" |
| SpellerRepository.DictsAllTags | src/speller_repository.rs:89-97 | the two archives' tags are the seven of "se" followed by the seven of "sma" |
| SpellerRepository.DictsLanguagesSorted | src/speller_repository.rs:98 | the fourteen tags as listed are strictly ascending |
| SpellerRepository.DictsLanguagesSame | src/speller_repository.rs:98-99 | the fourteen tags are exactly the two archives' tags |
| SpellerRepository.DictsSupportedLanguages | src/speller_repository.rs:87-101 | any strictly ascending list with the two archives' tags is the fourteen tags in that order |
| SpellerRepository.DictsLookups | src/speller_repository.rs:105-118 | "se-NO" is a tag of se.zhfst, and "xx" is a tag of neither archive |
| SpellerRepository.ArchiveNameTags | src/speller_repository.rs:93-94 | an archive named `<base>.<ext>`, in any directory below its root, answers to the expansion of `<base>` |
| SpellerRepository.AliasedArchiveTags | src/speller_repository.rs:106-108 | an archive named after a Sámi base tag, in any directory, answers to its plain and Latin-script tags for NO, SE and FI |
| SpellerRepository.CollectTags | src/speller_repository.rs:89-97 | collects every archive's expansion, in archive order |
| SpellerRepository.SortAndDedup | src/speller_repository.rs:98-99 | the result is strictly ascending and has exactly the input's tags |
| SpellerRepository.HasTag | src/speller_repository.rs:110-114 | finds a match iff the requested tag is among the tags |
| SpellerRepository.FirstArchiveWithTag | src/speller_repository.rs:105-118 | finds nothing iff no archive's expansion contains the tag; otherwise returns the first archive whose expansion does |
| SpellerRepository.Repository.constructor | src/speller_repository.rs:73-75 | the repository keeps the given roots, in order |
| SpellerRepository.Repository.GetSpellerArchives | src/speller_repository.rs:77-85 | every root's findings concatenated in root order, duplicates kept |
| SpellerRepository.Repository.GetSupportedLanguages | src/speller_repository.rs:87-101 | strictly ascending (sorted, no repeats) and containing exactly the tags some archive answers to |
| SpellerRepository.Repository.GetSpellerArchive | src/speller_repository.rs:103-119 | none iff no archive answers to the tag; otherwise the first archive, in discovery order, that does |
| SpellerRepository.Repository.LookupAgreesWithSupported | src/speller_repository.rs:87-119 | a lookup finds an archive iff the tag is among the supported languages |
| SpellerRepository.TwoArchiveQueries | src/speller_repository.rs:77-119 | with the archives se.zhfst and sma.bhfst and a resolver that knows neither base tag: both archives in order, the fourteen tags in ascending order, se.zhfst for "se-NO", nothing for "xx" |
| SpellerRepository.DictsQueries | src/speller_repository.rs:73-119 | the same answers from a repository whose one root holds se.zhfst and sma.bhfst |

## Left out

- The real filesystem is not modelled. `Path`/`PathBuf`, `fs::read_dir` and `is_dir` are replaced by the `FileSystem` tree value. A path is its root string followed by entry names, so the separators and the joining done by `entry.path()` are not modelled.
- Symbolic links are not a node kind of their own. `is_dir` follows links, so a link to a directory is a `Dir` node holding the target's tree, and `visit_dirs` walks into it. A link cycle cannot be represented, because a tree is finite. An `is_dir` that fails (a broken link, an error reading the entry's metadata) reads as "not a directory" and is the `File` node; such an entry is collected when its name carries a bundle extension, as the code does.
- FileTree.FileName: a path's first component is the whole configured root string, so for a bare root such as `/dicts` the model's stem is `/dicts` where `Path::file_stem` gives `dicts`. The stem is only ever taken of archives, which have at least two components, so this never matters.
- Overlapping roots are not modelled. Each root string maps to its own tree, so nothing ties a root to a tree reached through another root. The same file found under two roots appears twice, as in the code.
- The entries "." and ".." are not modelled, because `read_dir` never yields them.
- The locale resolver `util::resolve_locale_name` is a parameter, because its code is not part of this model.
- `to_string_lossy` is not modelled. Names are sequences of Unicode characters, so no lossy conversion ever happens.
- The logging calls (`info!`, `error!`) are not modelled. `find_speller_bundles` discards its error, and so does the model.
- `lazy_static` one-time initialisation and `HashMap` hashing are not modelled. The table is a constant `map`.
- SpellerRepository.SortAndDedup: `res.sort()` and `res.dedup()` are modelled on values, not in place on the vector.
- StringOrder.SortStrings: an insertion sort stands for the library's stable merge sort. The two agree on every input, because the sorted order of strings is unique.
- StringOrder.Below: `String` ordering compares UTF-8 bytes. The model compares characters, which gives the same order because UTF-8 preserves code point order.
- SpellerRepository.FirstArchiveWithTag: the nested search loops of `get_speller_archive` are separate methods (`FirstArchiveWithTag`, with the inner loop `HasTag`). The repository method calls them.
- SpellerRepository.CollectTags: the `filter_map`/`flatten`/`collect` pipeline of `get_supported_languages` is a loop that appends each archive's tags.
- A filesystem that changes between or during calls is not modelled: every query reads the same `FileSystem` value.
