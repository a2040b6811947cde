/**
 * The directory tree the repository walks, and the file-name rules
 * (`Path::extension`, `Path::file_stem`) it applies to what it finds.
 */
module FileTree {
  import opened Options

  /**
   * A path as its components: the root directory string exactly as it was
   * configured, then one entry name per level below it.
   */
  type Path = seq<string>

  /** What a path names: a directory (whose listing may fail) or anything else. */
  datatype Node = File | Dir(listing: Listing)

  /** The outcome of `fs::read_dir`: a failure, or the entries in enumeration order. */
  datatype Listing = Unreadable | Listed(entries: seq<Entry>)

  /** One item of a directory iteration: a named node, or an item that failed to read. */
  datatype Entry = Entry(name: string, node: Node) | BrokenEntry

  /** Each configured root string, mapped to what it names when it exists. */
  type FileSystem = map<string, Node>

  /** The index of the last '.' in a name, if there is one. */
  function LastDot(name: string): (r: Option<nat>)
    ensures r.Some? ==> r.value < |name| && name[r.value] == '.'
    ensures r.Some? ==> forall j :: r.value < j < |name| ==> name[j] != '.'
    ensures r.None? ==> forall j :: 0 <= j < |name| ==> name[j] != '.'
  {
    if name == [] then None
    else if name[|name| - 1] == '.' then Some(|name| - 1)
    else LastDot(name[..|name| - 1])
  }

  /**
   * `Path::extension` of an entry name: what follows the last dot, unless
   * there is no dot or the only dot leads the name.
   */
  function Extension(name: string): Option<string> {
    match LastDot(name)
    case None => None
    case Some(i) => if i == 0 then None else Some(name[i + 1..])
  }

  /** `Path::file_stem` of an entry name: the name without its extension and the dot before it. */
  function Stem(name: string): string {
    match LastDot(name)
    case None => name
    case Some(i) => if i == 0 then name else name[..i]
  }

  /** Stem and extension split a name at its last dot; a name without an extension is its own stem. */
  lemma StemExtensionSplit(name: string)
    ensures Extension(name).Some? ==>
      Stem(name) != [] && name == Stem(name) + "." + Extension(name).value &&
      forall j :: 0 <= j < |Extension(name).value| ==> Extension(name).value[j] != '.'
    ensures Extension(name).None? ==> Stem(name) == name
  {
    match LastDot(name)
    case None =>
    case Some(i) =>
      if i != 0 {
        assert name == name[..i] + "." + name[i + 1..];
      }
  }

  /** Joining a non-empty stem and a dot-free extension gives a name that splits back into them. */
  lemma StemExtensionJoin(stem: string, ext: string)
    requires stem != []
    requires forall j :: 0 <= j < |ext| ==> ext[j] != '.'
    ensures Stem(stem + "." + ext) == stem
    ensures Extension(stem + "." + ext) == Some(ext)
  {
    var name := stem + "." + ext;
    assert name[|stem|] == '.';
    assert forall j :: |stem| < j < |name| ==> name[j] == ext[j - |stem| - 1];
    var r := LastDot(name);
    assert r.Some? && r.value == |stem|;
    assert name[..|stem|] == stem && name[|stem| + 1..] == ext;
  }

  /** The extensions that mark a dictionary bundle, compared exactly and case-sensitively. */
  predicate IsBundleName(name: string) {
    Extension(name) == Some("zhfst") || Extension(name) == Some("bhfst")
  }

  /** A name is a bundle name exactly when it is longer than six characters and ends in ".zhfst" or ".bhfst". */
  lemma BundleNameSuffix(name: string)
    ensures IsBundleName(name) <==>
      |name| > 6 && (name[|name| - 6..] == ".zhfst" || name[|name| - 6..] == ".bhfst")
  {
    var n := |name|;
    if |name| > 6 && (name[n - 6..] == ".zhfst" || name[n - 6..] == ".bhfst") {
      assert name[n - 6] == name[n - 6..][0] == '.';
      assert forall j :: n - 6 < j < n ==> name[j] == name[n - 6..][j - (n - 6)] != '.';
      var r := LastDot(name);
      assert r.Some? && r.value == n - 6;
      assert name[n - 5..] == name[n - 6..][1..];
    }
    if IsBundleName(name) {
      var i := LastDot(name).value;
      assert |name[i + 1..]| == 5;
      assert name[n - 6..] == "." + name[i + 1..];
    }
  }

  /** `Path::file_name`: the last component, or nothing for an empty path. */
  function FileName(p: Path): Option<string> {
    if p == [] then None else Some(p[|p| - 1])
  }

  /** `Path::file_stem` of a whole path. */
  function FileStem(p: Path): Option<string> {
    match FileName(p)
    case None => None
    case Some(name) => Some(Stem(name))
  }

  /** A path the walk would collect by name: its last component has a bundle extension. */
  predicate IsBundlePath(p: Path) {
    |p| > 0 && IsBundleName(p[|p| - 1])
  }
}
