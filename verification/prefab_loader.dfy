/**
 * Loading prefab templates: a prefab document is read, parsed, registered as a template,
 * and each entry of its `Instances` object is resolved recursively into a nested template
 * joined to it by a link. The set of paths whose load is in progress travels through the
 * recursion and rejects a path that reappears on its own ancestor chain; a path already
 * registered returns its existing template; a failing nested instance only marks the
 * template as loaded with errors.
 */
module PrefabLoader {
  import opened Wrappers
  import opened Dom
  import opened PrefabPaths
  import opened PrefabRegistry

  /** The files on disk, by absolute path; a missing key is a failed read. */
  type FileSystem = map<Path, string>

  /** How the reflection round trip writes a template back out. */
  datatype StoreFlag = StoreLinkIds | StripDefaultValues

  /** The typed object a prefab document is instantiated into during normalisation. */
  datatype Instance = Instance(state: Json)

  /**
   * The collaborators the loader and saver call: path answers, the JSON codec, the
   * reflection round trip, and the registry's and the disk's reasons for refusing.
   */
  datatype Env = Env(
    paths: PathEnv,
    parse: string -> Option<Json>,
    serialize: Json -> Option<string>,
    toInstance: Json -> Option<Instance>,
    toDom: (Instance, StoreFlag) -> Option<Json>,
    refusesTemplate: (Path, Json) -> bool,
    refusesLink: (TemplateId, TemplateId, string) -> bool,
    refusesWrite: Path -> bool)

  /**
   * Which path is removed from the in-progress set when a load finishes: the path the
   * caller spelled (as the loader is written) or the registry key that was inserted.
   */
  datatype UnmarkPolicy = EraseOriginPath | EraseRelativePath

  function UnmarkKey(policy: UnmarkPolicy, originPath: Path, relativePath: Path): Path
  {
    match policy
    case EraseOriginPath => originPath
    case EraseRelativePath => relativePath
  }

  datatype LoadState = LoadState(reg: Registry, inProgress: set<Path>)
  datatype LoadResult = LoadResult(id: TemplateId, st: LoadState)
  datatype NestedResult = NestedResult(ok: bool, st: LoadState)
  datatype Sanitized = Sanitized(ok: bool, dom: Json)

  /**
   * Normalisation: instantiate the document and store the instance back with the given
   * flag. The document is replaced only when both steps succeed.
   */
  function Sanitize(env: Env, dom: Json, flag: StoreFlag): (r: Sanitized)
    ensures !r.ok ==> r.dom == dom
    ensures r.ok <==> env.toInstance(dom).Some? && env.toDom(env.toInstance(dom).value, flag).Some?
    ensures r.ok ==> Some(r.dom) == env.toDom(env.toInstance(dom).value, flag)
  {
    match env.toInstance(dom)
    case None => Sanitized(false, dom)
    case Some(instance) =>
      match env.toDom(instance, flag)
      case None => Sanitized(false, dom)
      case Some(stored) => Sanitized(true, stored)
  }

  /** The reflection round trip gives back the instance it stored. */
  ghost predicate RoundTripStable(env: Env)
  {
    forall i, flag :: env.toDom(i, flag).Some? ==> env.toInstance(env.toDom(i, flag).value) == Some(i)
  }

  /**
   * With a stable round trip, a document normalised one way normalises any way exactly
   * as the original would; in particular normalising twice is normalising once.
   */
  lemma SanitizeAfterSanitize(env: Env, dom: Json, first: StoreFlag, second: StoreFlag)
    requires RoundTripStable(env)
    requires Sanitize(env, dom, first).ok
    ensures Sanitize(env, Sanitize(env, dom, first).dom, second).ok == Sanitize(env, dom, second).ok
    ensures Sanitize(env, dom, second).ok ==>
      Sanitize(env, Sanitize(env, dom, first).dom, second).dom == Sanitize(env, dom, second).dom
    ensures Sanitize(env, Sanitize(env, dom, first).dom, first) == Sanitize(env, dom, first)
  {
    var instance := env.toInstance(dom).value;
    assert env.toDom(instance, first).Some?;
    assert env.toInstance(env.toDom(instance, first).value) == Some(instance);
  }

  /** The nested prefab path an instance names in its `Source` member, when that is a non-empty string. */
  function NestedSource(instance: Json): (r: Option<Path>)
    ensures r.Some? <==> exists s :: Lookup(instance, SourceName) == Some(Str(s)) && s != []
    ensures r.Some? ==> Lookup(instance, SourceName) == Some(Str(r.value))
  {
    match Lookup(instance, SourceName)
    case Some(Str(s)) => if s != [] then Some(s) else None
    case _ => None
  }

  /** An instance entry that can never produce a link: a bad key or no usable `Source`. */
  predicate Malformed(env: Env, m: Member): (b: bool)
    ensures b <==> !IsValidPrefabPath(env.paths, m.name) || !exists s :: Lookup(m.value, SourceName) == Some(Str(s)) && s != []
  {
    !IsValidPrefabPath(env.paths, m.name) || NestedSource(m.value).None?
  }

  /** The instances of a document read from `content`, as the parser delivers it. */
  function ParsedInstances(env: Env, content: string): seq<Member>
  {
    match env.parse(content)
    case None => []
    case Some(dom) => InstanceMembers(dom)
  }

  /** The in-progress set is restored by every load: when the key is erased, or every spelling is its own key. */
  ghost predicate RestoresInProgress(env: Env, policy: UnmarkPolicy)
  {
    policy == EraseRelativePath || KeysAreSpellings(env.paths)
  }

  /** `target` has a link for the instance `name` whose nested template loaded without errors. */
  ghost predicate LinkedCleanly(reg: Registry, target: TemplateId, name: string)
  {
    exists l :: l in reg.links && reg.links[l].target == target && reg.links[l].instancePath == InstancePathOf(name)
      && reg.links[l].source in reg.templates && !reg.templates[reg.links[l].source].loadedWithErrors
  }

  ghost predicate AllLinkedCleanly(reg: Registry, target: TemplateId, ms: seq<Member>)
  {
    forall i :: 0 <= i < |ms| ==> LinkedCleanly(reg, target, ms[i].name)
  }

  lemma LinkedCleanlyPersists(prev: Registry, next: Registry, target: TemplateId, name: string)
    requires Extends(prev, next) && LinkedCleanly(prev, target, name)
    ensures LinkedCleanly(next, target, name)
  {
    var l :| l in prev.links && prev.links[l].target == target && prev.links[l].instancePath == InstancePathOf(name)
      && prev.links[l].source in prev.templates && !prev.templates[prev.links[l].source].loadedWithErrors;
    assert next.links[l] == prev.links[l];
  }

  lemma AllLinkedCleanlyPersists(prev: Registry, next: Registry, target: TemplateId, ms: seq<Member>)
    requires Extends(prev, next) && AllLinkedCleanly(prev, target, ms)
    ensures AllLinkedCleanly(next, target, ms)
  {
    forall i | 0 <= i < |ms|
      ensures LinkedCleanly(next, target, ms[i].name)
    {
      LinkedCleanlyPersists(prev, next, target, ms[i].name);
    }
  }

  /** Clearing one template's error flag cannot undo a clean link. */
  lemma AllLinkedCleanlyAfterUpdate(reg: Registry, id: TemplateId, t: Template, target: TemplateId, ms: seq<Member>)
    requires Valid(reg) && id in reg.templates && t.path == reg.templates[id].path && !t.loadedWithErrors
    requires AllLinkedCleanly(reg, target, ms)
    ensures AllLinkedCleanly(UpdateTemplate(reg, id, t), target, ms)
  {
    var next := UpdateTemplate(reg, id, t);
    forall i | 0 <= i < |ms|
      ensures LinkedCleanly(next, target, ms[i].name)
    {
      assert LinkedCleanly(reg, target, ms[i].name);
      var l :| l in reg.links && reg.links[l].target == target && reg.links[l].instancePath == InstancePathOf(ms[i].name)
        && reg.links[l].source in reg.templates && !reg.templates[reg.links[l].source].loadedWithErrors;
      assert next.links[l] == reg.links[l];
    }
  }
  /** `path` is the registry key of the template `id`. */
  ghost predicate Registered(reg: Registry, path: Path, id: TemplateId)
  {
    path in reg.byPath && reg.byPath[path] == id && id in reg.templates
  }

  /** A registration followed by growth that only links into the new template is growth with no link into older ones. */
  lemma GrowthThroughNewTemplate(prev: Registry, added: Registry, mid: Registry, id: TemplateId, t: Template)
    requires Valid(mid) && id in mid.templates && id !in prev.templates && t.path == mid.templates[id].path
    requires added.links == prev.links && added.templates.Keys == prev.templates.Keys + {id}
    requires Extends(prev, mid) && NewLinksInto(added, mid, {id})
    ensures Extends(prev, UpdateTemplate(mid, id, t)) && NewLinksInto(prev, UpdateTemplate(mid, id, t), {})
  {
  }

  /**
   * Loads a prefab file: the path must be valid and the file readable, both checked
   * before any registry lookup; the content is then loaded under that path.
   */
  function LoadFromFile(env: Env, policy: UnmarkPolicy, fuel: nat, fs: FileSystem, path: Path, st: LoadState)
    : (r: LoadResult)
    requires Valid(st.reg)
    ensures Valid(r.st.reg) && Extends(st.reg, r.st.reg) && NewLinksInto(st.reg, r.st.reg, {})
    ensures r.id == InvalidTemplateId ==> r.st == st
    ensures r.id != InvalidTemplateId ==> Registered(r.st.reg, GenerateRelativePath(env.paths, path), r.id)
    ensures !IsValidPrefabPath(env.paths, path) || GetFullPath(env.paths, path) !in fs ==>
      r == LoadResult(InvalidTemplateId, st)
    decreases fuel, 4
  {
    if !IsValidPrefabPath(env.paths, path) then LoadResult(InvalidTemplateId, st)
    else
      var fullPath := GetFullPath(env.paths, path);
      if fullPath !in fs then LoadResult(InvalidTemplateId, st)
      else LoadFromString(env, policy, fuel, fs, fs[fullPath], path, st)
  }

  /**
   * Loads prefab content under `originPath`. An invalid path, a key whose load is already
   * in progress (a cycle) and content that does not parse are rejected; a key already
   * registered returns its template untouched; otherwise a new template is created.
   */
  function LoadFromString(env: Env, policy: UnmarkPolicy, fuel: nat, fs: FileSystem, content: string, originPath: Path, st: LoadState)
    : (r: LoadResult)
    requires Valid(st.reg)
    ensures Valid(r.st.reg) && Extends(st.reg, r.st.reg) && NewLinksInto(st.reg, r.st.reg, {})
    ensures r.id == InvalidTemplateId ==> r.st == st
    ensures r.id != InvalidTemplateId ==> Registered(r.st.reg, GenerateRelativePath(env.paths, originPath), r.id)
    ensures !IsValidPrefabPath(env.paths, originPath) ==> r == LoadResult(InvalidTemplateId, st)
    ensures var key := GenerateRelativePath(env.paths, originPath);
      IsValidPrefabPath(env.paths, originPath) && key in st.inProgress ==> r == LoadResult(InvalidTemplateId, st)
    ensures var key := GenerateRelativePath(env.paths, originPath);
      IsValidPrefabPath(env.paths, originPath) && key !in st.inProgress && key in st.reg.byPath ==>
        r == LoadResult(st.reg.byPath[key], st)
    decreases fuel, 3
  {
    if !IsValidPrefabPath(env.paths, originPath) then LoadResult(InvalidTemplateId, st)
    else
      var relativePath := GenerateRelativePath(env.paths, originPath);
      if relativePath in st.inProgress then LoadResult(InvalidTemplateId, st)
      else
        var loadedId := TemplateIdFromPath(st.reg, relativePath);
        if loadedId != InvalidTemplateId then LoadResult(loadedId, st)
        else match env.parse(content)
          case None => LoadResult(InvalidTemplateId, st)
          case Some(parsed) =>
            CreateTemplate(env, policy, fuel, fs, SetMember(parsed, SourceName, Str(relativePath)), originPath, relativePath, st)
  }

  /**
   * Past the path, cycle and registry checks, content that does not parse and a template
   * the registry refuses both fail the load and leave the state exactly as it was.
   */
  lemma UnparsedOrRefusedFails(env: Env, policy: UnmarkPolicy, fuel: nat, fs: FileSystem, content: string, originPath: Path, st: LoadState)
    requires Valid(st.reg)
    ensures var key := GenerateRelativePath(env.paths, originPath);
      var r := LoadFromString(env, policy, fuel, fs, content, originPath, st);
      IsValidPrefabPath(env.paths, originPath) && key !in st.inProgress && key !in st.reg.byPath ==>
        && (env.parse(content).None? ==> r == LoadResult(InvalidTemplateId, st))
        && (env.parse(content).Some? && env.refusesTemplate(key, SetMember(env.parse(content).value, SourceName, Str(key))) ==>
              r == LoadResult(InvalidTemplateId, st))
  {
  }

  /**
   * Registers a parsed document under `relativePath`, resolves its instances while that
   * key is marked in progress, normalises the document, marks the template as loaded with
   * errors when any of that failed, and finally unmarks the policy's key.
   */
  function CreateTemplate(env: Env, policy: UnmarkPolicy, fuel: nat, fs: FileSystem, dom: Json, originPath: Path, relativePath: Path, st: LoadState)
    : (r: LoadResult)
    requires Valid(st.reg) && relativePath !in st.reg.byPath
    ensures Valid(r.st.reg) && Extends(st.reg, r.st.reg) && NewLinksInto(st.reg, r.st.reg, {})
    ensures r.id == InvalidTemplateId ==> r.st == st
    ensures r.id != InvalidTemplateId ==> r.id !in st.reg.templates && Registered(r.st.reg, relativePath, r.id)
    decreases fuel, 2
  {
    var added := AddTemplate(st.reg, relativePath, dom, env.refusesTemplate(relativePath, dom));
    if added.id == InvalidTemplateId then LoadResult(InvalidTemplateId, st)
    else
      var id := added.id;
      var nested := LoadInstances(env, policy, fuel, fs, InstanceMembers(dom), id,
                                  LoadState(added.reg, st.inProgress + {relativePath}));
      ExtendsTransitive(st.reg, added.reg, nested.st.reg);
      FinishTemplate(env, policy, originPath, relativePath, st.reg, added.reg, id, nested)
  }

  /**
   * The last steps of registering a template, once its instances are resolved: normalise
   * the document, record whether anything failed, and unmark the policy's key.
   */
  function FinishTemplate(env: Env, policy: UnmarkPolicy, originPath: Path, relativePath: Path,
                          prev: Registry, added: Registry, id: TemplateId, nested: NestedResult): (r: LoadResult)
    requires Valid(nested.st.reg) && id in nested.st.reg.templates && id !in prev.templates
    requires Registered(nested.st.reg, relativePath, id) && nested.st.reg.templates[id].path == relativePath
    requires added.links == prev.links && added.templates.Keys == prev.templates.Keys + {id}
    requires Extends(prev, nested.st.reg) && NewLinksInto(added, nested.st.reg, {id})
    ensures Valid(r.st.reg) && Extends(prev, r.st.reg) && NewLinksInto(prev, r.st.reg, {})
    ensures r.id == id && Registered(r.st.reg, relativePath, id)
    ensures r.st.inProgress == nested.st.inProgress - {UnmarkKey(policy, originPath, relativePath)}
  {
    var t := nested.st.reg.templates[id];
    var sanitized := Sanitize(env, t.dom, StoreLinkIds);
    var t' := t.(dom := sanitized.dom, loadedWithErrors := !(nested.ok && sanitized.ok));
    GrowthThroughNewTemplate(prev, added, nested.st.reg, id, t');
    var reg := UpdateTemplate(nested.st.reg, id, t');
    LoadResult(id, LoadState(reg, nested.st.inProgress - {UnmarkKey(policy, originPath, relativePath)}))
  }

  /**
   * Resolves the instance entries in document order. Every entry is processed whatever
   * happened to the earlier ones; the result is true only when all of them succeeded.
   */
  function LoadInstances(env: Env, policy: UnmarkPolicy, fuel: nat, fs: FileSystem, ms: seq<Member>, target: TemplateId, st: LoadState)
    : (r: NestedResult)
    requires Valid(st.reg) && target in st.reg.templates
    ensures Valid(r.st.reg) && Extends(st.reg, r.st.reg) && NewLinksInto(st.reg, r.st.reg, {target})
    decreases fuel, 1, |ms|
  {
    if |ms| == 0 then NestedResult(true, st)
    else
      var first := LoadNestedInstance(env, policy, fuel, fs, ms[0], target, st);
      var rest := LoadInstances(env, policy, fuel, fs, ms[1..], target, first.st);
      ExtendsTransitive(st.reg, first.st.reg, rest.st.reg);
      NestedResult(first.ok && rest.ok, rest.st)
  }

  /**
   * Resolves one instance entry: its key must be a valid path and its `Source` a non-empty
   * string; the nested prefab is then loaded and, when that yields a valid template, linked
   * into `target`. The entry succeeds only when the link exists and the nested template
   * itself loaded without errors. An exhausted nesting budget fails the entry.
   */
  function LoadNestedInstance(env: Env, policy: UnmarkPolicy, fuel: nat, fs: FileSystem, m: Member, target: TemplateId, st: LoadState)
    : (r: NestedResult)
    requires Valid(st.reg) && target in st.reg.templates
    ensures Valid(r.st.reg) && Extends(st.reg, r.st.reg) && NewLinksInto(st.reg, r.st.reg, {target})
    decreases fuel, 0
  {
    if !IsValidPrefabPath(env.paths, m.name) then NestedResult(false, st)
    else match NestedSource(m.value)
      case None => NestedResult(false, st)
      case Some(sourcePath) =>
        if fuel == 0 then NestedResult(false, st)
        else
          var loaded := LoadFromFile(env, policy, fuel - 1, fs, sourcePath, st);
          var linked := LinkNested(env, m, target, loaded);
          ExtendsTransitive(st.reg, loaded.st.reg, linked.st.reg);
          linked
  }

  /**
   * The second half of resolving an instance entry: link the template the nested load
   * produced into `target`, or fail when there is none, it is invalid or the link is refused.
   */
  function LinkNested(env: Env, m: Member, target: TemplateId, loaded: LoadResult): (r: NestedResult)
    requires Valid(loaded.st.reg) && target in loaded.st.reg.templates
    ensures Valid(r.st.reg) && Extends(loaded.st.reg, r.st.reg) && r.st.inProgress == loaded.st.inProgress
    ensures r.st.reg.templates == loaded.st.reg.templates
    ensures r.ok ==> LinkedCleanly(r.st.reg, target, m.name)
    ensures forall l :: l in r.st.reg.links && l !in loaded.st.reg.links ==>
      r.st.reg.links[l].target == target && r.st.reg.links[l].instancePath == InstancePathOf(m.name) && l == r.st.reg.nextLinkId - 1
  {
    var reg := loaded.st.reg;
    if loaded.id !in reg.templates || !reg.templates[loaded.id].valid then NestedResult(false, loaded.st)
    else
      var linked := AddLink(reg, loaded.id, target, m.name, m.value, env.refusesLink(loaded.id, target, m.name));
      if linked.id == InvalidLinkId then NestedResult(false, loaded.st)
      else
        assert linked.reg.links[linked.id].source == loaded.id;
        NestedResult(!reg.templates[loaded.id].loadedWithErrors, loaded.st.(reg := linked.reg))
  }

  /**
   * How linking ends: no template, an invalid one, a refused link or an exhausted link
   * counter fails and leaves the state as the nested load left it; otherwise exactly one
   * link from the nested template into `target` is added, and the entry succeeds exactly
   * when the nested template loaded without errors.
   */
  lemma LinkOutcome(env: Env, m: Member, target: TemplateId, loaded: LoadResult)
    requires Valid(loaded.st.reg) && target in loaded.st.reg.templates
    ensures var r := LinkNested(env, m, target, loaded);
      var reg := loaded.st.reg;
      (|| loaded.id !in reg.templates || !reg.templates[loaded.id].valid
       || env.refusesLink(loaded.id, target, m.name) || reg.nextLinkId >= InvalidLinkId)
        ==> r == NestedResult(false, loaded.st)
    ensures var r := LinkNested(env, m, target, loaded);
      var reg := loaded.st.reg;
      loaded.id in reg.templates && reg.templates[loaded.id].valid && !env.refusesLink(loaded.id, target, m.name)
        && reg.nextLinkId < InvalidLinkId ==>
        && r.ok == !reg.templates[loaded.id].loadedWithErrors
        && r.st.reg.links == reg.links[reg.nextLinkId := Link(loaded.id, target, InstancePathOf(m.name), m.value, true)]
        && r.st.reg.nextLinkId == reg.nextLinkId + 1
  {
  }

  /**
   * Every load hands the in-progress set back as it found it, provided the key that was
   * marked is the one that is unmarked. The five lemmas follow the five mutually recursive
   * loading functions.
   */
  lemma {:induction false} FileRestoresInProgress(env: Env, policy: UnmarkPolicy, fuel: nat, fs: FileSystem, path: Path, st: LoadState)
    requires Valid(st.reg) && RestoresInProgress(env, policy)
    ensures LoadFromFile(env, policy, fuel, fs, path, st).st.inProgress == st.inProgress
    decreases fuel, 4
  {
    if IsValidPrefabPath(env.paths, path) && GetFullPath(env.paths, path) in fs {
      StringRestoresInProgress(env, policy, fuel, fs, fs[GetFullPath(env.paths, path)], path, st);
    }
  }

  lemma {:induction false} StringRestoresInProgress(env: Env, policy: UnmarkPolicy, fuel: nat, fs: FileSystem, content: string, originPath: Path, st: LoadState)
    requires Valid(st.reg) && RestoresInProgress(env, policy)
    ensures LoadFromString(env, policy, fuel, fs, content, originPath, st).st.inProgress == st.inProgress
    decreases fuel, 3
  {
    var relativePath := GenerateRelativePath(env.paths, originPath);
    if IsValidPrefabPath(env.paths, originPath) && relativePath !in st.inProgress && relativePath !in st.reg.byPath
      && env.parse(content).Some?
    {
      if policy == EraseOriginPath {
        assert GenerateRelativePath(env.paths, originPath) == originPath;
      }
      CreateRestoresInProgress(env, policy, fuel, fs, SetMember(env.parse(content).value, SourceName, Str(relativePath)),
                               originPath, relativePath, st);
    }
  }

  lemma {:induction false} CreateRestoresInProgress(env: Env, policy: UnmarkPolicy, fuel: nat, fs: FileSystem, dom: Json, originPath: Path, relativePath: Path, st: LoadState)
    requires Valid(st.reg) && relativePath !in st.reg.byPath && RestoresInProgress(env, policy)
    requires relativePath !in st.inProgress && UnmarkKey(policy, originPath, relativePath) == relativePath
    ensures CreateTemplate(env, policy, fuel, fs, dom, originPath, relativePath, st).st.inProgress == st.inProgress
    decreases fuel, 2
  {
    var added := AddTemplate(st.reg, relativePath, dom, env.refusesTemplate(relativePath, dom));
    if added.id != InvalidTemplateId {
      var marked := st.inProgress + {relativePath};
      InstancesRestoreInProgress(env, policy, fuel, fs, InstanceMembers(dom), added.id, LoadState(added.reg, marked));
      assert marked - {relativePath} == st.inProgress;
    }
  }

  lemma {:induction false} InstancesRestoreInProgress(env: Env, policy: UnmarkPolicy, fuel: nat, fs: FileSystem, ms: seq<Member>, target: TemplateId, st: LoadState)
    requires Valid(st.reg) && target in st.reg.templates && RestoresInProgress(env, policy)
    ensures LoadInstances(env, policy, fuel, fs, ms, target, st).st.inProgress == st.inProgress
    decreases fuel, 1, |ms|
  {
    if |ms| > 0 {
      NestedRestoresInProgress(env, policy, fuel, fs, ms[0], target, st);
      var first := LoadNestedInstance(env, policy, fuel, fs, ms[0], target, st);
      InstancesRestoreInProgress(env, policy, fuel, fs, ms[1..], target, first.st);
    }
  }

  lemma {:induction false} NestedRestoresInProgress(env: Env, policy: UnmarkPolicy, fuel: nat, fs: FileSystem, m: Member, target: TemplateId, st: LoadState)
    requires Valid(st.reg) && target in st.reg.templates && RestoresInProgress(env, policy)
    ensures LoadNestedInstance(env, policy, fuel, fs, m, target, st).st.inProgress == st.inProgress
    decreases fuel, 0
  {
    if IsValidPrefabPath(env.paths, m.name) && NestedSource(m.value).Some? && fuel > 0 {
      FileRestoresInProgress(env, policy, fuel - 1, fs, NestedSource(m.value).value, st);
      LoadedInProgressKept(env, policy, fuel, fs, m, target, st);
    } else {
      NestedInProgress(env, policy, fuel, fs, m, target, st);
    }
  }

  /** When the nested load restores the in-progress set, so does the whole entry. */
  lemma LoadedInProgressKept(env: Env, policy: UnmarkPolicy, fuel: nat, fs: FileSystem, m: Member, target: TemplateId, st: LoadState)
    requires Valid(st.reg) && target in st.reg.templates
    requires IsValidPrefabPath(env.paths, m.name) && NestedSource(m.value).Some? && fuel > 0
    requires LoadFromFile(env, policy, fuel - 1, fs, NestedSource(m.value).value, st).st.inProgress == st.inProgress
    ensures LoadNestedInstance(env, policy, fuel, fs, m, target, st).st.inProgress == st.inProgress
  {
    NestedInProgress(env, policy, fuel, fs, m, target, st);
  }

  /** Linking never touches the in-progress set: an entry leaves it as the nested load left it. */
  lemma NestedInProgress(env: Env, policy: UnmarkPolicy, fuel: nat, fs: FileSystem, m: Member, target: TemplateId, st: LoadState)
    requires Valid(st.reg) && target in st.reg.templates
    ensures LoadNestedInstance(env, policy, fuel, fs, m, target, st).st.inProgress ==
      if !IsValidPrefabPath(env.paths, m.name) || NestedSource(m.value).None? || fuel == 0 then st.inProgress
      else LoadFromFile(env, policy, fuel - 1, fs, NestedSource(m.value).value, st).st.inProgress
  {
    NestedStep(env, policy, fuel, fs, m, target, st);
  }

  /** Unfolding helper: one instance entry is either an immediate failure or a nested load followed by linking. */
  lemma NestedStep(env: Env, policy: UnmarkPolicy, fuel: nat, fs: FileSystem, m: Member, target: TemplateId, st: LoadState)
    requires Valid(st.reg) && target in st.reg.templates
    ensures LoadNestedInstance(env, policy, fuel, fs, m, target, st) ==
      if !IsValidPrefabPath(env.paths, m.name) || NestedSource(m.value).None? || fuel == 0 then NestedResult(false, st)
      else LinkNested(env, m, target, LoadFromFile(env, policy, fuel - 1, fs, NestedSource(m.value).value, st))
  {
  }

  /**
   * How an instance entry ends: a malformed entry or an exhausted budget fails at once;
   * otherwise the nested load runs, a missing or invalid template or a refused link fails
   * the entry, and a new link from the nested template into `target` makes the entry
   * succeed exactly when the nested template loaded without errors.
   */
  lemma NestedOutcome(env: Env, policy: UnmarkPolicy, fuel: nat, fs: FileSystem, m: Member, target: TemplateId, st: LoadState)
    requires Valid(st.reg) && target in st.reg.templates
    ensures var r := LoadNestedInstance(env, policy, fuel, fs, m, target, st);
      Malformed(env, m) || fuel == 0 ==> r == NestedResult(false, st)
    ensures var r := LoadNestedInstance(env, policy, fuel, fs, m, target, st);
      !Malformed(env, m) && fuel > 0 ==>
        var loaded := LoadFromFile(env, policy, fuel - 1, fs, NestedSource(m.value).value, st);
        var reg := loaded.st.reg;
        && (loaded.id == InvalidTemplateId ==> r == NestedResult(false, st))
        && (loaded.id != InvalidTemplateId
              && (!reg.templates[loaded.id].valid || env.refusesLink(loaded.id, target, m.name) || reg.nextLinkId >= InvalidLinkId)
            ==> r == NestedResult(false, loaded.st))
        && (loaded.id != InvalidTemplateId && reg.templates[loaded.id].valid && !env.refusesLink(loaded.id, target, m.name)
              && reg.nextLinkId < InvalidLinkId ==>
              && r.ok == !reg.templates[loaded.id].loadedWithErrors
              && r.st.reg.links == reg.links[reg.nextLinkId := Link(loaded.id, target, InstancePathOf(m.name), m.value, true)])
  {
    NestedStep(env, policy, fuel, fs, m, target, st);
    if !Malformed(env, m) && fuel > 0 {
      LinkOutcome(env, m, target, LoadFromFile(env, policy, fuel - 1, fs, NestedSource(m.value).value, st));
    }
  }

  /** An entry with a bad key or no usable `Source` fails and leaves the state exactly as it was. */
  lemma MalformedEntryFails(env: Env, policy: UnmarkPolicy, fuel: nat, fs: FileSystem, m: Member, target: TemplateId, st: LoadState)
    requires Valid(st.reg) && target in st.reg.templates
    requires Malformed(env, m)
    ensures LoadNestedInstance(env, policy, fuel, fs, m, target, st) == NestedResult(false, st)
  {
    NestedStep(env, policy, fuel, fs, m, target, st);
  }

  /** An entry succeeds only through a link into `target` from a nested template that loaded without errors. */
  lemma NestedSuccessLinksCleanly(env: Env, policy: UnmarkPolicy, fuel: nat, fs: FileSystem, m: Member, target: TemplateId, st: LoadState)
    requires Valid(st.reg) && target in st.reg.templates
    ensures var r := LoadNestedInstance(env, policy, fuel, fs, m, target, st);
      r.ok ==> LinkedCleanly(r.st.reg, target, m.name)
  {
    NestedStep(env, policy, fuel, fs, m, target, st);
  }

  /**
   * Resolving an entry adds at most one link into `target`: the newest link, for the
   * entry's own instance path.
   */
  lemma NestedAddsOneLink(env: Env, policy: UnmarkPolicy, fuel: nat, fs: FileSystem, m: Member, target: TemplateId, st: LoadState)
    requires Valid(st.reg) && target in st.reg.templates
    ensures var r := LoadNestedInstance(env, policy, fuel, fs, m, target, st);
      forall l :: l in r.st.reg.links && l !in st.reg.links && r.st.reg.links[l].target == target ==>
        r.st.reg.links[l].instancePath == InstancePathOf(m.name) && l == r.st.reg.nextLinkId - 1
  {
    NestedStep(env, policy, fuel, fs, m, target, st);
  }

  /** Unfolding helper: one step of the instance loop, the head entry and then the rest from the state it left. */
  lemma LoadInstancesStep(env: Env, policy: UnmarkPolicy, fuel: nat, fs: FileSystem, ms: seq<Member>, target: TemplateId, st: LoadState)
    requires Valid(st.reg) && target in st.reg.templates && |ms| > 0
    ensures var first := LoadNestedInstance(env, policy, fuel, fs, ms[0], target, st);
      var rest := LoadInstances(env, policy, fuel, fs, ms[1..], target, first.st);
      LoadInstances(env, policy, fuel, fs, ms, target, st) == NestedResult(first.ok && rest.ok, rest.st)
  {
  }

  /**
   * Continue-on-error: an instance list succeeds only when every entry is linked to a
   * nested template that loaded cleanly.
   */
  lemma {:induction false} InstancesLinkCleanly(env: Env, policy: UnmarkPolicy, fuel: nat, fs: FileSystem, ms: seq<Member>, target: TemplateId, st: LoadState)
    requires Valid(st.reg) && target in st.reg.templates
    ensures var r := LoadInstances(env, policy, fuel, fs, ms, target, st);
      r.ok ==> AllLinkedCleanly(r.st.reg, target, ms)
    decreases |ms|
  {
    if |ms| > 0 {
      var first := LoadNestedInstance(env, policy, fuel, fs, ms[0], target, st);
      var rest := LoadInstances(env, policy, fuel, fs, ms[1..], target, first.st);
      LoadInstancesStep(env, policy, fuel, fs, ms, target, st);
      NestedSuccessLinksCleanly(env, policy, fuel, fs, ms[0], target, st);
      if first.ok && rest.ok {
        InstancesLinkCleanly(env, policy, fuel, fs, ms[1..], target, first.st);
        LinkedCleanlyPersists(first.st.reg, rest.st.reg, target, ms[0].name);
        forall i | 0 <= i < |ms|
          ensures LinkedCleanly(rest.st.reg, target, ms[i].name)
        {
          if i > 0 {
            assert ms[i] == ms[1..][i - 1];
          }
        }
      }
    }
  }

  /** A single malformed entry fails the whole instance list, though the others are still loaded. */
  lemma {:induction false} InstancesFailOnMalformed(env: Env, policy: UnmarkPolicy, fuel: nat, fs: FileSystem, ms: seq<Member>, target: TemplateId, st: LoadState, i: nat)
    requires Valid(st.reg) && target in st.reg.templates
    requires i < |ms| && Malformed(env, ms[i])
    ensures !LoadInstances(env, policy, fuel, fs, ms, target, st).ok
    decreases |ms|
  {
    var first := LoadNestedInstance(env, policy, fuel, fs, ms[0], target, st);
    LoadInstancesStep(env, policy, fuel, fs, ms, target, st);
    if i == 0 {
      MalformedEntryFails(env, policy, fuel, fs, ms[0], target, st);
    } else {
      assert Malformed(env, ms[1..][i - 1]);
      InstancesFailOnMalformed(env, policy, fuel, fs, ms[1..], target, first.st, i - 1);
    }
  }

  /**
   * The state-threading loop of the instance list, for any way `step` of resolving one
   * entry: every entry runs from the state the previous one left, and the list succeeds
   * when all entries do.
   */
  ghost function Thread(step: (Member, LoadState) -> NestedResult, ms: seq<Member>, st: LoadState): NestedResult
    decreases |ms|
  {
    if |ms| == 0 then NestedResult(true, st)
    else
      var first := step(ms[0], st);
      var rest := Thread(step, ms[1..], first.st);
      NestedResult(first.ok && rest.ok, rest.st)
  }

  lemma {:induction false} ThreadSplit(step: (Member, LoadState) -> NestedResult, ms: seq<Member>, st: LoadState, i: nat)
    requires i <= |ms|
    ensures var prefix := Thread(step, ms[..i], st);
      var suffix := Thread(step, ms[i..], prefix.st);
      Thread(step, ms, st) == NestedResult(prefix.ok && suffix.ok, suffix.st)
    decreases i
  {
    if i == 0 {
      assert ms[..0] == [] && ms[0..] == ms;
    } else {
      ThreadSplit(step, ms[1..], step(ms[0], st).st, i - 1);
      assert ms[..i][0] == ms[0];
      assert ms[..i][1..] == ms[1..][..i - 1];
      assert ms[1..][i - 1..] == ms[i..];
    }
  }

  lemma ThreadSnoc(step: (Member, LoadState) -> NestedResult, ms: seq<Member>, st: LoadState, k: nat)
    requires k < |ms|
    ensures var before := Thread(step, ms[..k], st);
      var entry := step(ms[k], before.st);
      Thread(step, ms[..k + 1], st) == NestedResult(before.ok && entry.ok, entry.st)
  {
    ThreadSplit(step, ms[..k + 1], st, k);
    assert ms[..k + 1][..k] == ms[..k];
    assert ms[..k + 1][k..] == [ms[k]];
    assert [ms[k]][1..] == [];
  }

  lemma {:induction false} ThreadPrefixOk(step: (Member, LoadState) -> NestedResult, ms: seq<Member>, st: LoadState, k: nat)
    requires k <= |ms|
    ensures Thread(step, ms[..k], st).ok <==> forall i :: 0 <= i < k ==> step(ms[i], Thread(step, ms[..i], st).st).ok
    decreases k
  {
    if k == 0 {
      assert ms[..0] == [];
    } else {
      ThreadPrefixOk(step, ms, st, k - 1);
      ThreadSnoc(step, ms, st, k - 1);
    }
  }

  /** Resolving one entry into `target`, as a step of the loop; a state outside the registry invariant fails. */
  ghost function EntryStep(env: Env, policy: UnmarkPolicy, fuel: nat, fs: FileSystem, target: TemplateId): (Member, LoadState) -> NestedResult
  {
    (m: Member, s: LoadState) =>
      if Valid(s.reg) && target in s.reg.templates then LoadNestedInstance(env, policy, fuel, fs, m, target, s)
      else NestedResult(false, s)
  }

  /** The instance loop is the state-threading loop of `LoadNestedInstance`. */
  lemma {:induction false} InstancesAreThread(env: Env, policy: UnmarkPolicy, fuel: nat, fs: FileSystem, ms: seq<Member>, target: TemplateId, st: LoadState)
    requires Valid(st.reg) && target in st.reg.templates
    ensures LoadInstances(env, policy, fuel, fs, ms, target, st) == Thread(EntryStep(env, policy, fuel, fs, target), ms, st)
    decreases |ms|
  {
    if |ms| > 0 {
      LoadInstancesStep(env, policy, fuel, fs, ms, target, st);
      InstancesAreThread(env, policy, fuel, fs, ms[1..], target, LoadNestedInstance(env, policy, fuel, fs, ms[0], target, st).st);
    }
  }

  /**
   * What the entry `ms[i]` of an instance list yields when it is resolved from the state
   * the entries before it left, whatever became of them.
   */
  ghost function EntryResult(env: Env, policy: UnmarkPolicy, fuel: nat, fs: FileSystem, ms: seq<Member>, target: TemplateId, st: LoadState, i: nat)
    : NestedResult
    requires Valid(st.reg) && target in st.reg.templates && i < |ms|
  {
    var before := LoadInstances(env, policy, fuel, fs, ms[..i], target, st);
    LoadNestedInstance(env, policy, fuel, fs, ms[i], target, before.st)
  }

  lemma EntryResultIsStep(env: Env, policy: UnmarkPolicy, fuel: nat, fs: FileSystem, ms: seq<Member>, target: TemplateId, st: LoadState, i: nat)
    requires Valid(st.reg) && target in st.reg.templates && i < |ms|
    ensures var step := EntryStep(env, policy, fuel, fs, target);
      EntryResult(env, policy, fuel, fs, ms, target, st, i) == step(ms[i], Thread(step, ms[..i], st).st)
  {
    InstancesAreThread(env, policy, fuel, fs, ms[..i], target, st);
  }

  /** The instance loop over a list is the loop over a prefix followed by the loop over the rest. */
  lemma InstancesSplit(env: Env, policy: UnmarkPolicy, fuel: nat, fs: FileSystem, ms: seq<Member>, target: TemplateId, st: LoadState, i: nat)
    requires Valid(st.reg) && target in st.reg.templates && i <= |ms|
    ensures var prefix := LoadInstances(env, policy, fuel, fs, ms[..i], target, st);
      var suffix := LoadInstances(env, policy, fuel, fs, ms[i..], target, prefix.st);
      LoadInstances(env, policy, fuel, fs, ms, target, st) == NestedResult(prefix.ok && suffix.ok, suffix.st)
  {
    var prefix := LoadInstances(env, policy, fuel, fs, ms[..i], target, st);
    InstancesAreThread(env, policy, fuel, fs, ms, target, st);
    InstancesAreThread(env, policy, fuel, fs, ms[..i], target, st);
    InstancesAreThread(env, policy, fuel, fs, ms[i..], target, prefix.st);
    ThreadSplit(EntryStep(env, policy, fuel, fs, target), ms, st, i);
  }

  /**
   * The instance list fails exactly when some entry failed, each entry being resolved from
   * the state the earlier ones left.
   */
  lemma InstancesFailIffEntryFails(env: Env, policy: UnmarkPolicy, fuel: nat, fs: FileSystem, ms: seq<Member>, target: TemplateId, st: LoadState)
    requires Valid(st.reg) && target in st.reg.templates
    ensures !LoadInstances(env, policy, fuel, fs, ms, target, st).ok <==>
      exists i :: 0 <= i < |ms| && !EntryResult(env, policy, fuel, fs, ms, target, st, i).ok
  {
    var step := EntryStep(env, policy, fuel, fs, target);
    InstancesAreThread(env, policy, fuel, fs, ms, target, st);
    ThreadPrefixOk(step, ms, st, |ms|);
    assert ms[..|ms|] == ms;
    forall i | 0 <= i < |ms|
      ensures EntryResult(env, policy, fuel, fs, ms, target, st, i) == step(ms[i], Thread(step, ms[..i], st).st)
    {
      EntryResultIsStep(env, policy, fuel, fs, ms, target, st, i);
    }
  }

  /**
   * Continue-on-error: an entry that succeeds keeps its clean link in the final registry,
   * whatever the entries before and after it did.
   */
  lemma InstancesContinueOnError(env: Env, policy: UnmarkPolicy, fuel: nat, fs: FileSystem, ms: seq<Member>, target: TemplateId, st: LoadState, i: nat)
    requires Valid(st.reg) && target in st.reg.templates && i < |ms|
    ensures EntryResult(env, policy, fuel, fs, ms, target, st, i).ok ==>
      LinkedCleanly(LoadInstances(env, policy, fuel, fs, ms, target, st).st.reg, target, ms[i].name)
  {
    var step := EntryStep(env, policy, fuel, fs, target);
    var before := LoadInstances(env, policy, fuel, fs, ms[..i], target, st);
    var entry := EntryResult(env, policy, fuel, fs, ms, target, st, i);
    NestedSuccessLinksCleanly(env, policy, fuel, fs, ms[i], target, before.st);
    InstancesAreThread(env, policy, fuel, fs, ms[..i], target, st);
    InstancesAreThread(env, policy, fuel, fs, ms[..i + 1], target, st);
    ThreadSnoc(step, ms, st, i);
    InstancesSplit(env, policy, fuel, fs, ms, target, st, i + 1);
    var after := LoadInstances(env, policy, fuel, fs, ms[i + 1..], target, entry.st);
    if entry.ok {
      LinkedCleanlyPersists(entry.st.reg, after.st.reg, target, ms[i].name);
    }
  }

  /**
   * A created template is marked as loaded with errors exactly when one of its instance
   * entries failed or normalising its document failed; its stored document is the
   * normalised one, or the original when normalising failed.
   */
  lemma CreateMarksErrors(env: Env, policy: UnmarkPolicy, fuel: nat, fs: FileSystem, dom: Json, originPath: Path, relativePath: Path, st: LoadState)
    requires Valid(st.reg) && relativePath !in st.reg.byPath
    ensures var r := CreateTemplate(env, policy, fuel, fs, dom, originPath, relativePath, st);
      var added := AddTemplate(st.reg, relativePath, dom, env.refusesTemplate(relativePath, dom));
      var marked := LoadState(added.reg, st.inProgress + {relativePath});
      var ms := InstanceMembers(dom);
      added.id != InvalidTemplateId ==>
        && r.id == added.id
        && (r.st.reg.templates[r.id].loadedWithErrors <==>
              (exists i :: 0 <= i < |ms| && !EntryResult(env, policy, fuel, fs, ms, added.id, marked, i).ok)
              || !Sanitize(env, dom, StoreLinkIds).ok)
        && r.st.reg.templates[r.id].dom == Sanitize(env, dom, StoreLinkIds).dom
  {
    var added := AddTemplate(st.reg, relativePath, dom, env.refusesTemplate(relativePath, dom));
    if added.id != InvalidTemplateId {
      var marked := LoadState(added.reg, st.inProgress + {relativePath});
      InstancesFailIffEntryFails(env, policy, fuel, fs, InstanceMembers(dom), added.id, marked);
      var nested := LoadInstances(env, policy, fuel, fs, InstanceMembers(dom), added.id, marked);
      assert nested.st.reg.templates[added.id] == added.reg.templates[added.id];
    }
  }

  /**
   * A template a load creates is left unmarked only when every instance its document
   * lists is linked to a nested template that loaded cleanly; a malformed instance entry
   * always leaves the loaded-with-errors mark.
   */
  lemma CreatedTemplateLinks(env: Env, policy: UnmarkPolicy, fuel: nat, fs: FileSystem, content: string, originPath: Path, st: LoadState)
    requires Valid(st.reg)
    ensures var r := LoadFromString(env, policy, fuel, fs, content, originPath, st);
      r.id != InvalidTemplateId && r.id !in st.reg.templates ==>
        && (!r.st.reg.templates[r.id].loadedWithErrors ==> AllLinkedCleanly(r.st.reg, r.id, ParsedInstances(env, content)))
        && ((exists i :: 0 <= i < |ParsedInstances(env, content)| && Malformed(env, ParsedInstances(env, content)[i])) ==>
              r.st.reg.templates[r.id].loadedWithErrors)
  {
    var relativePath := GenerateRelativePath(env.paths, originPath);
    if IsValidPrefabPath(env.paths, originPath) && relativePath !in st.inProgress && relativePath !in st.reg.byPath
      && env.parse(content).Some?
    {
      var parsed := env.parse(content).value;
      var dom := SetMember(parsed, SourceName, Str(relativePath));
      SetSourceKeepsInstances(parsed, relativePath);
      var added := AddTemplate(st.reg, relativePath, dom, env.refusesTemplate(relativePath, dom));
      if added.id != InvalidTemplateId {
        var id := added.id;
        var ms := InstanceMembers(dom);
        var nested := LoadInstances(env, policy, fuel, fs, ms, id, LoadState(added.reg, st.inProgress + {relativePath}));
        InstancesLinkCleanly(env, policy, fuel, fs, ms, id, LoadState(added.reg, st.inProgress + {relativePath}));
        if i :| 0 <= i < |ms| && Malformed(env, ms[i]) {
          InstancesFailOnMalformed(env, policy, fuel, fs, ms, id, LoadState(added.reg, st.inProgress + {relativePath}), i);
        }
        var t := nested.st.reg.templates[id];
        var sanitized := Sanitize(env, t.dom, StoreLinkIds);
        if nested.ok && sanitized.ok {
          AllLinkedCleanlyAfterUpdate(nested.st.reg, id, t.(dom := sanitized.dom, loadedWithErrors := false), id, ms);
        }
      }
    }
  }

  /**
   * As the loader is written, the in-progress set is marked with the registry key but
   * unmarked with the caller's spelling. When the two differ, loading even a document
   * without instances leaves the key behind, and a later load of the same prefab in the
   * same pass is rejected as a cycle instead of returning the template just registered.
   */
  lemma SpellingLeavesKeyInProgress(env: Env, fuel: nat, fs: FileSystem, content: string, originPath: Path, st: LoadState,
                                    laterContent: string, laterPath: Path)
    requires Valid(st.reg)
    requires IsValidPrefabPath(env.paths, originPath) && GenerateRelativePath(env.paths, originPath) != originPath
    requires GenerateRelativePath(env.paths, originPath) !in st.inProgress && GenerateRelativePath(env.paths, originPath) !in st.reg.byPath
    requires env.parse(content).Some? && InstanceMembers(env.parse(content).value) == []
    requires IsValidPrefabPath(env.paths, laterPath) && GenerateRelativePath(env.paths, laterPath) == GenerateRelativePath(env.paths, originPath)
    ensures var r := LoadFromString(env, EraseOriginPath, fuel, fs, content, originPath, st);
      r.id != InvalidTemplateId ==>
        && GenerateRelativePath(env.paths, originPath) in r.st.inProgress
        && LoadFromString(env, EraseOriginPath, fuel, fs, laterContent, laterPath, r.st).id == InvalidTemplateId
  {
    var relativePath := GenerateRelativePath(env.paths, originPath);
    var parsed := env.parse(content).value;
    var dom := SetMember(parsed, SourceName, Str(relativePath));
    SetSourceKeepsInstances(parsed, relativePath);
    CreateWithoutInstances(env, EraseOriginPath, fuel, fs, dom, originPath, relativePath, st);
    assert LoadFromString(env, EraseOriginPath, fuel, fs, content, originPath, st)
        == CreateTemplate(env, EraseOriginPath, fuel, fs, dom, originPath, relativePath, st);
  }

  /** A document without instances is registered and its policy key unmarked, with nothing loaded in between. */
  lemma CreateWithoutInstances(env: Env, policy: UnmarkPolicy, fuel: nat, fs: FileSystem, dom: Json, originPath: Path, relativePath: Path, st: LoadState)
    requires Valid(st.reg) && relativePath !in st.reg.byPath && InstanceMembers(dom) == []
    ensures var r := CreateTemplate(env, policy, fuel, fs, dom, originPath, relativePath, st);
      r.id != InvalidTemplateId ==> r.st.inProgress == st.inProgress + {relativePath} - {UnmarkKey(policy, originPath, relativePath)}
  {
    var added := AddTemplate(st.reg, relativePath, dom, env.refusesTemplate(relativePath, dom));
    if added.id != InvalidTemplateId {
      var marked := LoadState(added.reg, st.inProgress + {relativePath});
      assert LoadInstances(env, policy, fuel, fs, InstanceMembers(dom), added.id, marked) == NestedResult(true, marked);
    }
  }

  /**
   * With the key itself unmarked, the same situation behaves as intended: the set is
   * restored and a later load of the same prefab returns the registered template.
   */
  lemma KeyUnmarkedAllowsReuse(env: Env, fuel: nat, fs: FileSystem, content: string, originPath: Path, st: LoadState,
                               laterContent: string, laterPath: Path)
    requires Valid(st.reg)
    requires GenerateRelativePath(env.paths, originPath) !in st.inProgress
    requires IsValidPrefabPath(env.paths, laterPath) && GenerateRelativePath(env.paths, laterPath) == GenerateRelativePath(env.paths, originPath)
    ensures var r := LoadFromString(env, EraseRelativePath, fuel, fs, content, originPath, st);
      && r.st.inProgress == st.inProgress
      && (r.id != InvalidTemplateId ==> LoadFromString(env, EraseRelativePath, fuel, fs, laterContent, laterPath, r.st) == LoadResult(r.id, r.st))
  {
    StringRestoresInProgress(env, EraseRelativePath, fuel, fs, content, originPath, st);
  }

  /** Loading a prefab file from scratch: the in-progress set starts empty and is dropped afterwards. */
  function LoadTemplateFromFile(env: Env, policy: UnmarkPolicy, fuel: nat, fs: FileSystem, path: Path, reg: Registry)
    : (r: Added<TemplateId>)
    requires Valid(reg)
    ensures Valid(r.reg) && Extends(reg, r.reg)
    ensures r.id == InvalidTemplateId ==> r.reg == reg
    ensures r.id != InvalidTemplateId ==> Registered(r.reg, GenerateRelativePath(env.paths, path), r.id)
  {
    var loaded := LoadFromFile(env, policy, fuel, fs, path, LoadState(reg, {}));
    Added(loaded.id, loaded.st.reg)
  }

  /** Loading prefab content from scratch, registered under the key of `originPath`. */
  function LoadTemplateFromString(env: Env, policy: UnmarkPolicy, fuel: nat, fs: FileSystem, content: string, originPath: Path, reg: Registry)
    : (r: Added<TemplateId>)
    requires Valid(reg)
    ensures Valid(r.reg) && Extends(reg, r.reg)
    ensures r.id == InvalidTemplateId ==> r.reg == reg
    ensures r.id != InvalidTemplateId ==> Registered(r.reg, GenerateRelativePath(env.paths, originPath), r.id)
  {
    var loaded := LoadFromString(env, policy, fuel, fs, content, originPath, LoadState(reg, {}));
    Added(loaded.id, loaded.st.reg)
  }
}
