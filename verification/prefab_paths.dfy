/**
 * Path helpers of the prefab loader: syntactic validation of prefab paths, and the
 * fallback branches of the conversions between project-relative and absolute paths.
 * Paths follow POSIX spelling: '/' separates sections and a path is absolute when it
 * starts with '/'.
 */
module PrefabPaths {
  import opened Wrappers

  type Path = string

  /**
   * What the path helpers learn from their surroundings: the project root from the
   * settings registry, the platform's forbidden characters, and the answers of the
   * asset system (`None` when it has no answer) and of lexical path arithmetic.
   */
  datatype PathEnv = PathEnv(
    projectPath: Path,
    invalidChars: set<char>,
    sourceInfo: Path -> Option<Path>,
    relativeSourcePath: Path -> Option<Path>,
    relativeToProject: Path -> Path)

  predicate IsAbsolute(p: Path)
  {
    |p| > 0 && p[0] == '/'
  }

  /** Index of the first character of `s` that belongs to `chars`, as `find_first_of` computes it. */
  function FindFirstOf(s: string, chars: set<char>): (r: Option<nat>)
    ensures r.Some? ==> r.value < |s| && s[r.value] in chars
    ensures r.Some? ==> forall i :: 0 <= i < r.value ==> s[i] !in chars
    ensures r.None? <==> forall i :: 0 <= i < |s| ==> s[i] !in chars
  {
    if |s| == 0 then None
    else if s[0] in chars then Some(0)
    else match FindFirstOf(s[1..], chars)
      case None => None
      case Some(i) => Some(i + 1)
  }

  /** A prefab path is usable when it is non-empty, holds no forbidden character and does not end in a separator. */
  predicate IsValidPrefabPath(env: PathEnv, path: Path)
  {
    && |path| > 0
    && FindFirstOf(path, env.invalidChars).None?
    && path[|path| - 1] != '\\' && path[|path| - 1] != '/'
  }

  /** The three rejections the validity check makes, stated character by character. */
  lemma ValidPrefabPathMeaning(env: PathEnv, path: Path)
    ensures IsValidPrefabPath(env, path) <==>
      && path != []
      && (forall i :: 0 <= i < |path| ==> path[i] !in env.invalidChars)
      && path[|path| - 1] !in {'/', '\\'}
  {
  }

  predicate StartsWith(s: string, prefix: string)
  {
    |prefix| <= |s| && s[..|prefix|] == prefix
  }

  predicate EndsWith(s: string, suffix: string)
  {
    |suffix| <= |s| && s[|s| - |suffix|..] == suffix
  }

  /** Appends a relative path to a directory, adding a separator only when the directory lacks one. */
  function Join(dir: Path, rel: Path): (r: Path)
    ensures StartsWith(r, dir) && EndsWith(r, rel)
    ensures |dir| > 0 && dir[|dir| - 1] != '/' ==> r == dir + "/" + rel
  {
    if |dir| == 0 || dir[|dir| - 1] == '/' then dir + rel else dir + "/" + rel
  }

  /**
   * The absolute location of a prefab path: absolute paths are kept, relative ones are
   * resolved by the asset system or, failing that, appended to the project root.
   */
  function GetFullPath(env: PathEnv, path: Path): (r: Path)
    ensures IsAbsolute(path) ==> r == path
    ensures !IsAbsolute(path) && env.sourceInfo(path).None? ==>
      StartsWith(r, env.projectPath) && EndsWith(r, path)
  {
    if IsAbsolute(path) then path
    else match env.sourceInfo(path)
      case Some(full) => full
      case None => Join(env.projectPath, path)
  }

  /**
   * The project-relative key under which a prefab is registered: the asset system's
   * non-empty answer when it has one; otherwise an absolute path made relative to the
   * project root and a relative path kept as it is.
   */
  function GenerateRelativePath(env: PathEnv, path: Path): (r: Path)
    ensures env.relativeSourcePath(path).Some? && env.relativeSourcePath(path).value != [] ==>
      r == env.relativeSourcePath(path).value
    ensures !IsAbsolute(path) && path != [] ==> r != []
    ensures IsAbsolute(path) && (env.relativeSourcePath(path).None? || env.relativeSourcePath(path) == Some([])) ==>
      r == env.relativeToProject(path)
  {
    var answer := env.relativeSourcePath(path);
    if answer.Some? && answer.value != [] then answer.value
    else if IsAbsolute(path) then env.relativeToProject(path)
    else path
  }

  /** Without an asset-system answer a relative path is its own key; an empty answer counts as none. */
  lemma RelativePathKeptWithoutAnswer(env: PathEnv, path: Path)
    requires !IsAbsolute(path)
    requires env.relativeSourcePath(path) == None || env.relativeSourcePath(path) == Some([])
    ensures GenerateRelativePath(env, path) == path
  {
  }

  /** Every spelling of a prefab path is already its registry key. */
  ghost predicate KeysAreSpellings(env: PathEnv)
  {
    forall p :: GenerateRelativePath(env, p) == p
  }
}
