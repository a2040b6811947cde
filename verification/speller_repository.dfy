/**
 * The Archive Repository (`SpellerRepository`): a fixed list of root
 * directories, the archives found under them, the languages those archives
 * support, and the archive that serves a requested language tag.
 */
module SpellerRepository {
  import opened Options
  import opened TagExpansion
  import opened FileTree
  import opened BundleDiscovery
  import opened StringOrder

  /** The archives of every root, concatenated in root order, duplicates kept. */
  function Archives(fs: FileSystem, roots: seq<string>): seq<Path> {
    if roots == [] then []
    else Archives(fs, roots[..|roots| - 1]) + RootBundles(fs, roots[|roots| - 1])
  }

  /** Discovery distributes over a split of the root list. */
  lemma {:induction false} ArchivesAppend(fs: FileSystem, first: seq<string>, second: seq<string>)
    ensures Archives(fs, first + second) == Archives(fs, first) + Archives(fs, second)
    decreases |second|
  {
    if second == [] {
      assert first + second == first;
    } else {
      var init := second[..|second| - 1];
      assert (first + second)[..|first + second| - 1] == first + init;
      ArchivesAppend(fs, first, init);
    }
  }

  /** An archive comes from some root, and everything found under a root is an archive. */
  lemma {:induction false} ArchivesMembership(fs: FileSystem, roots: seq<string>, p: Path)
    ensures p in Archives(fs, roots) <==> exists i :: 0 <= i < |roots| && p in RootBundles(fs, roots[i])
    decreases |roots|
  {
    if roots != [] {
      var init := roots[..|roots| - 1];
      ArchivesMembership(fs, init, p);
      if p in Archives(fs, init) {
        var i :| 0 <= i < |init| && p in RootBundles(fs, init[i]);
        assert roots[i] == init[i];
      }
      if exists i :: 0 <= i < |roots| && p in RootBundles(fs, roots[i]) {
        var i :| 0 <= i < |roots| && p in RootBundles(fs, roots[i]);
        if i < |init| {
          assert roots[i] == init[i];
        }
      }
    }
  }

  /** Every archive is a bundle file found under one of the roots, its path starting with that root. */
  lemma ArchivesSound(fs: FileSystem, roots: seq<string>, p: Path)
    requires p in Archives(fs, roots)
    ensures IsBundlePath(p) && |p| >= 2 && p[0] in roots && p[0] in fs
    ensures p in Files([p[0]], fs[p[0]])
  {
    ArchivesMembership(fs, roots, p);
    var i :| 0 <= i < |roots| && p in RootBundles(fs, roots[i]);
    RootBundlesSound(fs, roots[i], p);
  }

  lemma RootBundlesSound(fs: FileSystem, root: string, p: Path)
    requires p in RootBundles(fs, root)
    ensures root in fs && IsBundlePath(p) && |p| >= 2 && p[0] == root
    ensures p in Files([root], fs[root])
  {
    assert root in fs && p in Walk([root], fs[root]).found;
    WalkSound([root], fs[root]);
    assert p[..1] == [root] && p[0] == p[..1][0];
  }

  /** With no root that exists there are no archives. */
  lemma NoRootsNoArchives(fs: FileSystem, roots: seq<string>)
    requires forall r :: r in roots ==> r !in fs
    ensures Archives(fs, roots) == []
  {
    if Archives(fs, roots) != [] {
      ArchivesMembership(fs, roots, Archives(fs, roots)[0]);
    }
  }

  /** The tags an archive answers to: the expansion of its file stem. */
  function TagsOf(resolve: Resolver, p: Path): seq<string> {
    match FileStem(p)
    case None => []
    case Some(stem) => LocaleTags(resolve, stem)
  }

  /** Tag lists joined end to end, in order. */
  function Flatten(parts: seq<seq<string>>): seq<string> {
    if parts == [] then []
    else Flatten(parts[..|parts| - 1]) + parts[|parts| - 1]
  }

  /** A tag is in the joined lists exactly when it is in one of them. */
  lemma {:induction false} FlattenMembership(parts: seq<seq<string>>, tag: string)
    ensures tag in Flatten(parts) <==> exists i :: 0 <= i < |parts| && tag in parts[i]
    decreases |parts|
  {
    if parts != [] {
      var init := parts[..|parts| - 1];
      FlattenMembership(init, tag);
      if tag in Flatten(init) {
        var i :| 0 <= i < |init| && tag in init[i];
        assert parts[i] == init[i];
      }
      if exists i :: 0 <= i < |parts| && tag in parts[i] {
        var i :| 0 <= i < |parts| && tag in parts[i];
        if i < |init| {
          assert parts[i] == init[i];
        }
      }
    }
  }

  /** Each archive's expansion, in archive order. */
  function TagLists(resolve: Resolver, archives: seq<Path>): seq<seq<string>> {
    seq(|archives|, i requires 0 <= i < |archives| => TagsOf(resolve, archives[i]))
  }

  /** The expansions of all archives, flattened in archive order. */
  function AllTags(resolve: Resolver, archives: seq<Path>): seq<string> {
    Flatten(TagLists(resolve, archives))
  }

  /**
   * A tag is among the flattened expansions exactly when some archive's
   * expansion contains it: a lookup succeeds exactly for the supported languages.
   */
  lemma AllTagsMembership(resolve: Resolver, archives: seq<Path>, tag: string)
    ensures tag in AllTags(resolve, archives) <==>
      exists i :: 0 <= i < |archives| && tag in TagsOf(resolve, archives[i])
  {
    var lists := TagLists(resolve, archives);
    FlattenMembership(lists, tag);
    if exists i :: 0 <= i < |archives| && tag in TagsOf(resolve, archives[i]) {
      var i :| 0 <= i < |archives| && tag in TagsOf(resolve, archives[i]);
      assert tag in lists[i];
    }
  }

  /** No archive answering to a tag is the same as the tag not being collected. */
  lemma NoMatchIffUnsupported(resolve: Resolver, archives: seq<Path>, tag: string)
    ensures (forall i :: 0 <= i < |archives| ==> tag !in TagsOf(resolve, archives[i])) <==>
      tag !in AllTags(resolve, archives)
  {
    AllTagsMembership(resolve, archives, tag);
  }

  /** Every archive contributes at least its first tag to the supported languages. */
  lemma ArchiveTagSupported(resolve: Resolver, archives: seq<Path>, i: nat)
    requires i < |archives| && |archives[i]| > 0
    ensures CanonicalTag(resolve, Stem(archives[i][|archives[i]| - 1])) in AllTags(resolve, archives)
  {
    AllTagsMembership(resolve, archives, CanonicalTag(resolve, Stem(archives[i][|archives[i]| - 1])));
  }

  /**
   * A root directory listing exactly two files, both with a bundle
   * extension, yields those two files in listing order.
   */
  lemma TwoBundleRoot(root: string, n0: string, n1: string)
    requires IsBundleName(n0) && IsBundleName(n1)
    ensures Archives(map[root := Dir(Listed([Entry(n0, File), Entry(n1, File)]))], [root]) ==
      [[root, n0], [root, n1]]
  {
    var fs := map[root := Dir(Listed([Entry(n0, File), Entry(n1, File)]))];
    var entries := [Entry(n0, File), Entry(n1, File)];
    assert entries[1..] == [Entry(n1, File)] && entries[1..][1..] == [];
    assert [root] + [n0] == [root, n0] && [root] + [n1] == [root, n1];
    assert WalkEntries([root], entries[1..][1..]) == Walked([], true);
    assert WalkEntries([root], entries[1..]).found == [[root, n1]];
    assert Walk([root], fs[root]).found == [[root, n0], [root, n1]];
    assert [root][..0] == [];
    assert Archives(fs, [root]) == Archives(fs, []) + RootBundles(fs, root);
  }

  /**
   * An archive named `<base>.<ext>`, in any directory, answers to the
   * expansion of `<base>`.
   */
  lemma ArchiveNameTags(resolve: Resolver, dir: Path, base: string, ext: string)
    requires base != [] && '.' !in ext
    ensures TagsOf(resolve, dir + [base + "." + ext]) == LocaleTags(resolve, base)
  {
    StemExtensionJoin(base, ext);
  }

  /**
   * An archive named after a Sámi base tag, in any directory, answers, for
   * each of Norway, Sweden and Finland, to both the plain and the
   * Latin-script regional tag.
   */
  lemma AliasedArchiveTags(resolve: Resolver, dir: Path, base: string, ext: string, region: string)
    requires base in AliasedBaseTags && '.' !in ext && region in AliasRegions
    ensures base + "-" + region in TagsOf(resolve, dir + [base + "." + ext])
    ensures base + "-Latn-" + region in TagsOf(resolve, dir + [base + "." + ext])
  {
    ArchiveNameTags(resolve, dir, base, ext);
    RegionTagsIncluded(resolve, base, region);
  }

  /**
   * An archive named after a Sámi base tag the resolver does not know, in
   * any directory, answers to exactly that tag and its six aliases, in table order.
   */
  lemma UnresolvedAliasedTags(resolve: Resolver, dir: Path, base: string, ext: string)
    requires base in AliasedBaseTags && '.' !in ext && resolve(base).None?
    ensures TagsOf(resolve, dir + [base + "." + ext]) ==
      [base, base + "-Latn-NO", base + "-NO", base + "-Latn-SE", base + "-SE", base + "-Latn-FI", base + "-FI"]
  {
    ArchiveNameTags(resolve, dir, base, ext);
    LocaleTagsShape(resolve, base);
    var tags := LocaleTags(resolve, base);
    assert tags == [tags[0]] + tags[1..];
  }

  /** Two lists joined end to end. */
  lemma FlattenTwo(x: seq<string>, y: seq<string>)
    ensures Flatten([x, y]) == x + y
  {
    assert [x, y][..1] == [x] && [x][..0] == [];
    assert Flatten([x]) == Flatten([]) + x;
  }

  /** Two archives' tags, flattened, are the first's followed by the second's. */
  lemma AllTagsOfTwo(resolve: Resolver, a0: Path, a1: Path)
    ensures AllTags(resolve, [a0, a1]) == TagsOf(resolve, a0) + TagsOf(resolve, a1)
  {
    assert TagLists(resolve, [a0, a1]) == [TagsOf(resolve, a0), TagsOf(resolve, a1)];
    FlattenTwo(TagsOf(resolve, a0), TagsOf(resolve, a1));
  }

  /** A root holding the two files "se.zhfst" and "sma.bhfst", in that listing order. */
  const DictsTree: FileSystem :=
    map["/dicts" := Dir(Listed([Entry("se.zhfst", File), Entry("sma.bhfst", File)]))]

  const SeArchive: Path := ["/dicts", "se.zhfst"]
  const SmaArchive: Path := ["/dicts", "sma.bhfst"]

  /** The tags of "se.zhfst" when the resolver does not know "se". */
  const SeTags: seq<string> := ["se", "se-Latn-NO", "se-NO", "se-Latn-SE", "se-SE", "se-Latn-FI", "se-FI"]

  /** The tags of "sma.bhfst" when the resolver does not know "sma". */
  const SmaTags: seq<string> := ["sma", "sma-Latn-NO", "sma-NO", "sma-Latn-SE", "sma-SE", "sma-Latn-FI", "sma-FI"]

  /** The fourteen tags of both archives in ascending order. */
  const DictsLanguages: seq<string> :=
    ["se", "se-FI", "se-Latn-FI", "se-Latn-NO", "se-Latn-SE", "se-NO", "se-SE",
     "sma", "sma-FI", "sma-Latn-FI", "sma-Latn-NO", "sma-Latn-SE", "sma-NO", "sma-SE"]

  /** Both files of the root are archives, in listing order. */
  lemma DictsArchives()
    ensures Archives(DictsTree, ["/dicts"]) == [SeArchive, SmaArchive]
  {
    StemExtensionJoin("se", "zhfst");
    StemExtensionJoin("sma", "bhfst");
    assert "se" + "." + "zhfst" == "se.zhfst" && "sma" + "." + "bhfst" == "sma.bhfst";
    TwoBundleRoot("/dicts", "se.zhfst", "sma.bhfst");
  }

  /** The joined spellings of the first archive's name and tags are the literal ones. */
  lemma SeSpelled()
    ensures ["/dicts"] + ["se" + "." + "zhfst"] == SeArchive
    ensures ["se", "se" + "-Latn-NO", "se" + "-NO", "se" + "-Latn-SE", "se" + "-SE", "se" + "-Latn-FI", "se" + "-FI"] == SeTags
  {
    assert "se" + "." + "zhfst" == "se.zhfst";
    assert "se" + "-Latn-NO" == "se-Latn-NO" && "se" + "-NO" == "se-NO";
    assert "se" + "-Latn-SE" == "se-Latn-SE" && "se" + "-SE" == "se-SE";
    assert "se" + "-Latn-FI" == "se-Latn-FI" && "se" + "-FI" == "se-FI";
  }

  /** The joined spellings of the second archive's name and tags are the literal ones. */
  lemma SmaSpelled()
    ensures ["/dicts"] + ["sma" + "." + "bhfst"] == SmaArchive
    ensures ["sma", "sma" + "-Latn-NO", "sma" + "-NO", "sma" + "-Latn-SE", "sma" + "-SE", "sma" + "-Latn-FI", "sma" + "-FI"] == SmaTags
  {
    assert "sma" + "." + "bhfst" == "sma.bhfst";
    assert "sma" + "-Latn-NO" == "sma-Latn-NO" && "sma" + "-NO" == "sma-NO";
    assert "sma" + "-Latn-SE" == "sma-Latn-SE" && "sma" + "-SE" == "sma-SE";
    assert "sma" + "-Latn-FI" == "sma-Latn-FI" && "sma" + "-FI" == "sma-FI";
  }

  /** With a resolver that does not know "se", "se.zhfst" answers to "se" and its six aliases. */
  lemma DictsSeTags(resolve: Resolver)
    requires resolve("se").None?
    ensures TagsOf(resolve, SeArchive) == SeTags
  {
    UnresolvedAliasedTags(resolve, ["/dicts"], "se", "zhfst");
    SeSpelled();
  }

  /** With a resolver that does not know "sma", "sma.bhfst" answers to "sma" and its six aliases. */
  lemma DictsSmaTags(resolve: Resolver)
    requires resolve("sma").None?
    ensures TagsOf(resolve, SmaArchive) == SmaTags
  {
    UnresolvedAliasedTags(resolve, ["/dicts"], "sma", "bhfst");
    SmaSpelled();
  }

  /** The flattened tags of the two archives: the seven of "se" and then the seven of "sma". */
  lemma DictsAllTags(resolve: Resolver)
    requires resolve("se").None? && resolve("sma").None?
    ensures AllTags(resolve, [SeArchive, SmaArchive]) == SeTags + SmaTags
  {
    DictsSeTags(resolve);
    DictsSmaTags(resolve);
    AllTagsOfTwo(resolve, SeArchive, SmaArchive);
  }

  /** A base tag's six aliases, in ascending order: first the region-only "-FI" and the script forms. */
  lemma AliasesAscendingLow(b: string)
    ensures Below(b, b + "-FI") && Below(b + "-FI", b + "-Latn-FI") && Below(b + "-Latn-FI", b + "-Latn-NO")
  {
    BelowPrefixed(b, "", "-FI");
    assert b + "" == b;
    BelowPrefixed(b, "-FI", "-Latn-FI");
    BelowPrefixed(b, "-Latn-FI", "-Latn-NO");
  }

  /** The rest of the ascending aliases: the last script form, then "-NO" and "-SE". */
  lemma AliasesAscendingHigh(b: string)
    ensures Below(b + "-Latn-NO", b + "-Latn-SE") && Below(b + "-Latn-SE", b + "-NO") && Below(b + "-NO", b + "-SE")
  {
    BelowPrefixed(b, "-Latn-NO", "-Latn-SE");
    BelowPrefixed(b, "-Latn-SE", "-NO");
    BelowPrefixed(b, "-NO", "-SE");
  }

  /**
   * Seven consecutive entries spelling a base tag and its aliases in
   * ascending order are each below the next.
   */
  lemma AliasesAscendingAt(b: string, s: seq<string>, k: nat)
    requires k + 7 <= |s|
    requires s[k] == b && s[k + 1] == b + "-FI" && s[k + 2] == b + "-Latn-FI" && s[k + 3] == b + "-Latn-NO"
    requires s[k + 4] == b + "-Latn-SE" && s[k + 5] == b + "-NO" && s[k + 6] == b + "-SE"
    ensures forall i :: k <= i < k + 6 ==> Below(s[i], s[i + 1])
  {
    AliasesAscendingLow(b);
    AliasesAscendingHigh(b);
  }

  lemma DictsLanguagesSeSpelled()
    ensures DictsLanguages[0] == "se" && DictsLanguages[1] == "se" + "-FI" && DictsLanguages[2] == "se" + "-Latn-FI"
    ensures DictsLanguages[3] == "se" + "-Latn-NO" && DictsLanguages[4] == "se" + "-Latn-SE"
    ensures DictsLanguages[5] == "se" + "-NO" && DictsLanguages[6] == "se" + "-SE"
  {
    assert "se" + "-FI" == "se-FI" && "se" + "-Latn-FI" == "se-Latn-FI";
    assert "se" + "-Latn-NO" == "se-Latn-NO" && "se" + "-Latn-SE" == "se-Latn-SE";
    assert "se" + "-NO" == "se-NO" && "se" + "-SE" == "se-SE";
  }

  lemma DictsLanguagesSmaSpelled()
    ensures DictsLanguages[7] == "sma" && DictsLanguages[8] == "sma" + "-FI" && DictsLanguages[9] == "sma" + "-Latn-FI"
    ensures DictsLanguages[10] == "sma" + "-Latn-NO" && DictsLanguages[11] == "sma" + "-Latn-SE"
    ensures DictsLanguages[12] == "sma" + "-NO" && DictsLanguages[13] == "sma" + "-SE"
  {
    assert "sma" + "-FI" == "sma-FI" && "sma" + "-Latn-FI" == "sma-Latn-FI";
    assert "sma" + "-Latn-NO" == "sma-Latn-NO" && "sma" + "-Latn-SE" == "sma-Latn-SE";
    assert "sma" + "-NO" == "sma-NO" && "sma" + "-SE" == "sma-SE";
  }

  lemma DictsOrderSe()
    ensures forall i :: 0 <= i < 6 ==> Below(DictsLanguages[i], DictsLanguages[i + 1])
  {
    DictsLanguagesSeSpelled();
    AliasesAscendingAt("se", DictsLanguages, 0);
  }

  lemma DictsOrderSma()
    ensures forall i :: 7 <= i < 13 ==> Below(DictsLanguages[i], DictsLanguages[i + 1])
  {
    DictsLanguagesSmaSpelled();
    AliasesAscendingAt("sma", DictsLanguages, 7);
  }

  /** The fourteen tags, listed in ascending order, are strictly ascending. */
  lemma DictsLanguagesSorted()
    ensures StrictlySorted(DictsLanguages)
  {
    DictsOrderSe();
    assert Below(DictsLanguages[6], DictsLanguages[7]);
    DictsOrderSma();
    ChainStrictlySorted(DictsLanguages);
  }

  /** The ascending list holds exactly the two archives' tags. */
  lemma DictsLanguagesSame(tag: string)
    ensures tag in DictsLanguages <==> tag in SeTags + SmaTags
  {
  }

  /** "se-NO" is a tag of the first archive and "xx" is not. */
  lemma DictsSeLookups(resolve: Resolver)
    requires resolve("se").None?
    ensures "se-NO" in TagsOf(resolve, SeArchive) && "xx" !in TagsOf(resolve, SeArchive)
  {
    DictsSeTags(resolve);
    assert SeTags[2] == "se-NO";
  }

  /** "xx" is not a tag of the second archive. */
  lemma DictsSmaLookups(resolve: Resolver)
    requires resolve("sma").None?
    ensures "xx" !in TagsOf(resolve, SmaArchive)
  {
    DictsSmaTags(resolve);
  }

  /** "se-NO" is a tag of the first archive, and "xx" of neither. */
  lemma DictsLookups(resolve: Resolver, archives: seq<Path>)
    requires resolve("se").None? && resolve("sma").None?
    requires archives == [SeArchive, SmaArchive]
    ensures "se-NO" in TagsOf(resolve, archives[0])
    ensures forall i :: 0 <= i < |archives| ==> "xx" !in TagsOf(resolve, archives[i])
  {
    DictsSeLookups(resolve);
    DictsSmaLookups(resolve);
  }

  /**
   * With the two archives and a resolver that knows neither base tag, the
   * supported languages can only be the fourteen tags in ascending order.
   */
  lemma DictsSupportedLanguages(resolve: Resolver, languages: seq<string>)
    requires resolve("se").None? && resolve("sma").None?
    requires StrictlySorted(languages)
    requires forall tag :: tag in languages <==> tag in AllTags(resolve, [SeArchive, SmaArchive])
    ensures languages == DictsLanguages
  {
    DictsAllTags(resolve);
    DictsLanguagesSorted();
    forall tag ensures tag in languages <==> tag in DictsLanguages {
      DictsLanguagesSame(tag);
    }
    StrictlySortedUnique(languages, DictsLanguages);
  }

  /**
   * `res.sort(); res.dedup();`: the same tags, once each, in strictly
   * ascending order.
   */
  method SortAndDedup(res: seq<string>) returns (languages: seq<string>)
    ensures StrictlySorted(languages)
    ensures forall tag :: tag in languages <==> tag in res
  {
    var sorted := SortStrings(res);
    forall tag ensures tag in sorted <==> tag in res {
      assert tag in sorted <==> tag in multiset(sorted);
      assert tag in res <==> tag in multiset(res);
    }
    languages := DedupAdjacent(sorted);
    DedupOfSorted(sorted);
  }

  /** The collecting loop of `get_supported_languages`: every archive's tags, archive after archive. */
  method CollectTags(resolve: Resolver, archives: seq<Path>) returns (res: seq<string>)
    ensures res == AllTags(resolve, archives)
  {
    ghost var lists := TagLists(resolve, archives);
    res := [];
    for i := 0 to |archives|
      invariant res == Flatten(lists[..i])
    {
      assert lists[..i + 1][..i] == lists[..i];
      match FileStem(archives[i]) {
        case Some(stem) =>
          var tags := ResolveLocalName(resolve, stem);
          res := res + tags;
        case None =>
      }
    }
    assert lists[..|archives|] == lists;
  }

  /** The inner loop of `get_speller_archive`: scan one archive's tags for an exact match. */
  method HasTag(tags: seq<string>, languageTag: string) returns (hit: bool)
    ensures hit <==> languageTag in tags
  {
    for k := 0 to |tags|
      invariant languageTag !in tags[..k]
    {
      if tags[k] == languageTag {
        return true;
      }
    }
    assert tags[..|tags|] == tags;
    return false;
  }

  /**
   * The search loop of `get_speller_archive`: archives in order, and within
   * each its tags in order, returning at the first tag equal to the request.
   */
  method FirstArchiveWithTag(resolve: Resolver, archives: seq<Path>, languageTag: string) returns (found: Option<Path>)
    ensures found.None? <==> forall i :: 0 <= i < |archives| ==> languageTag !in TagsOf(resolve, archives[i])
    ensures found.Some? ==>
      exists i :: 0 <= i < |archives| && archives[i] == found.value &&
        languageTag in TagsOf(resolve, archives[i]) &&
        forall j :: 0 <= j < i ==> languageTag !in TagsOf(resolve, archives[j])
  {
    for i := 0 to |archives|
      invariant forall j :: 0 <= j < i ==> languageTag !in TagsOf(resolve, archives[j])
    {
      var path := archives[i];
      var tags: seq<string> := [];
      match FileStem(path) {
        case Some(stem) =>
          tags := ResolveLocalName(resolve, stem);
        case None =>
      }
      assert tags == TagsOf(resolve, path);
      var hit := HasTag(tags, languageTag);
      if hit {
        return Some(path);
      }
    }
    return None;
  }

  /** `SpellerRepository`: the root directories are fixed at construction. */
  class Repository {
    const baseDirectories: seq<string>

    /** `SpellerRepository::new` */
    constructor (baseDirectories: seq<string>)
      ensures this.baseDirectories == baseDirectories
    {
      this.baseDirectories := baseDirectories;
    }

    /** `get_speller_archives`: a fresh walk of every root, in root order. */
    method GetSpellerArchives(fs: FileSystem) returns (archives: seq<Path>)
      ensures archives == Archives(fs, baseDirectories)
    {
      archives := [];
      for i := 0 to |baseDirectories|
        invariant archives == Archives(fs, baseDirectories[..i])
      {
        var found := FindSpellerBundles(fs, baseDirectories[i]);
        assert baseDirectories[..i + 1][..i] == baseDirectories[..i];
        archives := archives + found;
      }
      assert baseDirectories[..|baseDirectories|] == baseDirectories;
    }

    /**
     * `get_supported_languages`: every tag of every archive, sorted in
     * ascending order without repeats.
     */
    method GetSupportedLanguages(fs: FileSystem, resolve: Resolver) returns (languages: seq<string>)
      ensures StrictlySorted(languages)
      ensures forall tag :: tag in languages <==> tag in AllTags(resolve, Archives(fs, baseDirectories))
    {
      var archives := GetSpellerArchives(fs);
      var res := CollectTags(resolve, archives);
      languages := SortAndDedup(res);
    }

    /**
     * `get_speller_archive`: the first archive, in discovery order, whose
     * expansion contains the requested tag; none when no archive's does.
     */
    method GetSpellerArchive(fs: FileSystem, resolve: Resolver, languageTag: string) returns (found: Option<Path>)
      ensures found.None? <==>
        forall i :: 0 <= i < |Archives(fs, baseDirectories)| ==>
          languageTag !in TagsOf(resolve, Archives(fs, baseDirectories)[i])
      ensures found.Some? ==>
        exists i :: 0 <= i < |Archives(fs, baseDirectories)| &&
          Archives(fs, baseDirectories)[i] == found.value &&
          languageTag in TagsOf(resolve, Archives(fs, baseDirectories)[i]) &&
          forall j :: 0 <= j < i ==> languageTag !in TagsOf(resolve, Archives(fs, baseDirectories)[j])
    {
      var archives := GetSpellerArchives(fs);
      found := FirstArchiveWithTag(resolve, archives, languageTag);
    }

    /**
     * A lookup succeeds exactly for the tags among the supported languages,
     * when both queries see the same directories.
     */
    method LookupAgreesWithSupported(fs: FileSystem, resolve: Resolver, languageTag: string)
      returns (found: Option<Path>, languages: seq<string>)
      ensures found.Some? <==> languageTag in languages
    {
      languages := GetSupportedLanguages(fs, resolve);
      found := GetSpellerArchive(fs, resolve, languageTag);
      NoMatchIffUnsupported(resolve, Archives(fs, baseDirectories), languageTag);
      assert found.None? <==> languageTag !in AllTags(resolve, Archives(fs, baseDirectories));
    }
  }

  /**
   * The three queries on any repository whose discovery finds the archives
   * "se.zhfst" and "sma.bhfst", in that order, with a resolver that knows
   * neither base tag.
   */
  method TwoArchiveQueries(repository: Repository, fs: FileSystem, resolve: Resolver)
    returns (archives: seq<Path>, languages: seq<string>, seNo: Option<Path>, unknown: Option<Path>)
    requires Archives(fs, repository.baseDirectories) == [SeArchive, SmaArchive]
    requires resolve("se").None? && resolve("sma").None?
    ensures archives == [SeArchive, SmaArchive]
    ensures languages == DictsLanguages
    ensures seNo == Some(SeArchive)
    ensures unknown == None
  {
    archives := repository.GetSpellerArchives(fs);
    languages := repository.GetSupportedLanguages(fs, resolve);
    seNo := repository.GetSpellerArchive(fs, resolve, "se-NO");
    unknown := repository.GetSpellerArchive(fs, resolve, "xx");
    DictsSupportedLanguages(resolve, languages);
    DictsLookups(resolve, archives);
  }

  /**
   * The three queries on a repository whose one root holds "se.zhfst" and
   * "sma.bhfst", with a resolver that knows neither base tag.
   */
  method DictsQueries(resolve: Resolver)
    returns (archives: seq<Path>, languages: seq<string>, seNo: Option<Path>, unknown: Option<Path>)
    requires resolve("se").None? && resolve("sma").None?
    ensures archives == [SeArchive, SmaArchive]
    ensures languages == DictsLanguages
    ensures seNo == Some(SeArchive)
    ensures unknown == None
  {
    var repository := new Repository(["/dicts"]);
    DictsArchives();
    archives, languages, seNo, unknown := TwoArchiveQueries(repository, DictsTree, resolve);
  }
}
