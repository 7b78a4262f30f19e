/** The file system as the resolver sees it: which paths are files or
    directories, and the already-parsed contents of the `package.json` and
    `tsconfig.json` files that can be read. Every query goes through the
    cleaned absolute form of the path, relative paths being taken from the
    working directory. */
module FileSystems {
  import opened Wrappers
  import opened Types
  import opened Paths

  /** The outcome of parsing a readable file. */
  datatype Parsed<T> = Document(doc: T) | Unparsable

  datatype FileSystem = FileSystem(
    cwd: seq<string>,
    files: set<Path>,
    dirs: set<Path>,
    packageJsons: map<Path, Parsed<PackageJSON>>,
    tsconfigs: map<Path, Parsed<TSConfig>>)

  /** The key under which the file system knows a path. */
  function Absolute(fs: FileSystem, p: Path): (r: Path)
    ensures r.absolute
  {
    Clean(if p.absolute then p else Path(true, fs.cwd + p.segments))
  }

  /** `Path::is_file`. */
  predicate IsFile(fs: FileSystem, p: Path) {
    Absolute(fs, p) in fs.files
  }

  /** `Path::exists`: a file or a directory. */
  predicate Exists(fs: FileSystem, p: Path) {
    Absolute(fs, p) in fs.files || Absolute(fs, p) in fs.dirs
  }

  /** `Path::canonicalize`: fails when nothing is at the path. */
  function Canonicalize(fs: FileSystem, p: Path): (r: Result<Path, EsResolverError>)
    ensures r.Ok? <==> Exists(fs, p)
    ensures r.Ok? ==> r.value.absolute && (r.value in fs.files || r.value in fs.dirs)
    ensures r.Err? ==> r.error == IOError
  {
    if Exists(fs, p) then Ok(Absolute(fs, p)) else Err(IOError)
  }

  /** `fs::read_to_string` followed by parsing as `package.json`. */
  function ReadPackageJson(fs: FileSystem, p: Path): (r: Result<PackageJSON, EsResolverError>)
    ensures r.Err? ==> r.error == IOError || r.error == InvalidPackageJSON
    ensures r.Ok? ==> Absolute(fs, p) in fs.packageJsons && fs.packageJsons[Absolute(fs, p)] == Document(r.value)
    ensures r == Err(IOError) <==> Absolute(fs, p) !in fs.packageJsons
  {
    var key := Absolute(fs, p);
    if key !in fs.packageJsons then Err(IOError)
    else
      match fs.packageJsons[key]
      case Document(d) => Ok(d)
      case Unparsable => Err(InvalidPackageJSON)
  }

  /** `fs::read_to_string` of a tsconfig: none when it cannot be read. */
  function ReadTsconfig(fs: FileSystem, p: Path): (r: Option<Parsed<TSConfig>>)
    ensures r.Some? <==> Absolute(fs, p) in fs.tsconfigs
    ensures r.Some? ==> r.value == fs.tsconfigs[Absolute(fs, p)]
  {
    var key := Absolute(fs, p);
    if key in fs.tsconfigs then Some(fs.tsconfigs[key]) else None
  }
}
