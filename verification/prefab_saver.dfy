/**
 * Saving prefab templates: a template's in-memory document is turned into its file form
 * (default values stripped, each nested instance collapsed back into the reference and
 * patches its link stores, the transient `Source` member removed) and written to disk or
 * to a string.
 */
module PrefabSaver {
  import opened Wrappers
  import opened Dom
  import opened PrefabPaths
  import opened PrefabRegistry
  import opened PrefabLoader

  /**
   * Overwrites, link by link, the instance each link anchors with the link's stored form.
   * A link that is missing or invalid, or whose location the document lacks, stops the
   * collapse.
   */
  function CollapseLinks(reg: Registry, out: Json, ls: seq<LinkId>): (r: Option<Json>)
    ensures (exists i :: 0 <= i < |ls| && (ls[i] !in reg.links || !reg.links[ls[i]].valid)) ==> r.None?
    ensures |ls| > 0 && ls[0] in reg.links && GetAt(out, reg.links[ls[0]].instancePath).None? ==> r.None?
    decreases |ls|
  {
    if |ls| == 0 then Some(out)
    else if ls[0] !in reg.links || !reg.links[ls[0]].valid then None
    else
      var link := reg.links[ls[0]];
      if GetAt(out, link.instancePath).None? then None
      else
        var r := CollapseLinks(reg, ReplaceAt(out, link.instancePath, link.linkDom), ls[1..]);
        assert forall i :: 1 <= i < |ls| ==> ls[i] == ls[1..][i - 1];
        r
  }

  /** Every link in `ls` exists, is valid and anchors at a location `out` has. */
  ghost predicate Collapsible(reg: Registry, out: Json, ls: seq<LinkId>)
  {
    forall i :: 0 <= i < |ls| ==>
      ls[i] in reg.links && reg.links[ls[i]].valid && GetAt(out, reg.links[ls[i]].instancePath).Some?
  }

  /** The links in `ls` anchor at pairwise disjoint locations. */
  ghost predicate DisjointLocations(reg: Registry, ls: seq<LinkId>)
  {
    forall i, j :: 0 <= i < j < |ls| && ls[i] in reg.links && ls[j] in reg.links ==>
      Independent(reg.links[ls[i]].instancePath, reg.links[ls[j]].instancePath)
  }

  /** Collapsing links at disjoint locations leaves each location holding its own link's stored form. */
  lemma {:induction false} CollapsePlacesLinkDoms(reg: Registry, out: Json, ls: seq<LinkId>)
    requires Collapsible(reg, out, ls) && DisjointLocations(reg, ls)
    ensures CollapseLinks(reg, out, ls).Some?
    ensures forall i :: 0 <= i < |ls| ==>
      GetAt(CollapseLinks(reg, out, ls).value, reg.links[ls[i]].instancePath) == Some(reg.links[ls[i]].linkDom)
    decreases |ls|
  {
    if |ls| > 0 {
      var link := reg.links[ls[0]];
      var next := ReplaceAt(out, link.instancePath, link.linkDom);
      var rest := ls[1..];
      forall i | 0 <= i < |rest|
        ensures rest[i] in reg.links && reg.links[rest[i]].valid && GetAt(next, reg.links[rest[i]].instancePath).Some?
      {
        assert rest[i] == ls[i + 1];
        ReplaceAtKeepsIndependent(out, link.instancePath, reg.links[rest[i]].instancePath, link.linkDom);
      }
      assert DisjointLocations(reg, rest) by {
        forall i, j | 0 <= i < j < |rest| && rest[i] in reg.links && rest[j] in reg.links
          ensures Independent(reg.links[rest[i]].instancePath, reg.links[rest[j]].instancePath)
        {
          assert rest[i] == ls[i + 1] && rest[j] == ls[j + 1];
        }
      }
      CollapsePlacesLinkDoms(reg, next, rest);
      var result := CollapseLinks(reg, next, rest).value;
      forall i | 0 <= i < |rest|
        ensures Independent(reg.links[rest[i]].instancePath, link.instancePath)
      {
        assert rest[i] == ls[i + 1];
      }
      CollapseKeepsOthers(reg, next, rest, link.instancePath);
      forall i | 0 <= i < |ls|
        ensures GetAt(result, reg.links[ls[i]].instancePath) == Some(reg.links[ls[i]].linkDom)
      {
        if i > 0 {
          assert ls[i] == rest[i - 1];
        }
      }
    }
  }

  /**
   * With links at disjoint locations, the collapse succeeds exactly when every link exists,
   * is valid and anchors at a location the document has.
   */
  lemma {:induction false} CollapseSucceedsExactly(reg: Registry, out: Json, ls: seq<LinkId>)
    requires DisjointLocations(reg, ls)
    ensures CollapseLinks(reg, out, ls).Some? <==> Collapsible(reg, out, ls)
    decreases |ls|
  {
    if Collapsible(reg, out, ls) {
      CollapsePlacesLinkDoms(reg, out, ls);
    } else if |ls| > 0 && ls[0] in reg.links && reg.links[ls[0]].valid && GetAt(out, reg.links[ls[0]].instancePath).Some? {
      var link := reg.links[ls[0]];
      var next := ReplaceAt(out, link.instancePath, link.linkDom);
      var rest := ls[1..];
      assert DisjointLocations(reg, rest) by {
        forall i, j | 0 <= i < j < |rest| && rest[i] in reg.links && rest[j] in reg.links
          ensures Independent(reg.links[rest[i]].instancePath, reg.links[rest[j]].instancePath)
        {
          assert rest[i] == ls[i + 1] && rest[j] == ls[j + 1];
        }
      }
      CollapseSucceedsExactly(reg, next, rest);
      var i :| 0 <= i < |ls| && !(ls[i] in reg.links && reg.links[ls[i]].valid && GetAt(out, reg.links[ls[i]].instancePath).Some?);
      assert rest[i - 1] == ls[i];
      if ls[i] in reg.links {
        ReplaceAtKeepsIndependent(out, link.instancePath, reg.links[ls[i]].instancePath, link.linkDom);
      }
    }
  }

  /** Collapsing never changes a location disjoint from every link's location. */
  lemma {:induction false} CollapseKeepsOthers(reg: Registry, out: Json, ls: seq<LinkId>, q: Pointer)
    requires Collapsible(reg, out, ls) && DisjointLocations(reg, ls)
    requires forall i :: 0 <= i < |ls| ==> Independent(reg.links[ls[i]].instancePath, q)
    ensures CollapseLinks(reg, out, ls).Some?
    ensures GetAt(CollapseLinks(reg, out, ls).value, q) == GetAt(out, q)
    decreases |ls|
  {
    if |ls| > 0 {
      var link := reg.links[ls[0]];
      var next := ReplaceAt(out, link.instancePath, link.linkDom);
      var rest := ls[1..];
      forall i | 0 <= i < |rest|
        ensures rest[i] in reg.links && reg.links[rest[i]].valid && GetAt(next, reg.links[rest[i]].instancePath).Some?
        ensures Independent(reg.links[rest[i]].instancePath, q)
      {
        assert rest[i] == ls[i + 1];
        ReplaceAtKeepsIndependent(out, link.instancePath, reg.links[rest[i]].instancePath, link.linkDom);
      }
      assert DisjointLocations(reg, rest) by {
        forall i, j | 0 <= i < j < |rest| && rest[i] in reg.links && rest[j] in reg.links
          ensures Independent(reg.links[rest[i]].instancePath, reg.links[rest[j]].instancePath)
        {
          assert rest[i] == ls[i + 1] && rest[j] == ls[j + 1];
        }
      }
      CollapseKeepsOthers(reg, next, rest, q);
      ReplaceAtKeepsIndependent(out, link.instancePath, q, link.linkDom);
    }
  }

  /**
   * The file form of a template's document: a copy stripped of default values (a failed
   * strip keeps the copy as it is), with every link of the template collapsed into it and
   * the `Source` member erased.
   */
  function CopyTemplateIntoPrefabFileFormat(env: Env, reg: Registry, id: TemplateId): (r: Option<Json>)
    requires Valid(reg) && id in reg.templates
    ensures r.Some? ==> forall k :: k != SourceName && k != InstancesName ==>
      Lookup(r.value, k) == Lookup(Sanitize(env, reg.templates[id].dom, StripDefaultValues).dom, k)
    ensures (exists l :: l in reg.links && reg.links[l].target == id && !reg.links[l].valid) ==> r.None?
  {
    var copy := Sanitize(env, reg.templates[id].dom, StripDefaultValues).dom;
    var ls := TemplateLinks(reg, id);
    match CollapseLinks(reg, copy, ls)
    case None => None
    case Some(collapsed) =>
      CollapseKeepsRootMembers(reg, copy, ls);
      Some(EraseMember(collapsed, SourceName))
  }

  /** Collapsing the links of a registry that satisfies the invariant touches only the `Instances` member. */
  lemma {:induction false} CollapseKeepsRootMembers(reg: Registry, out: Json, ls: seq<LinkId>)
    requires Valid(reg) && CollapseLinks(reg, out, ls).Some?
    ensures forall k :: k != InstancesName ==> Lookup(CollapseLinks(reg, out, ls).value, k) == Lookup(out, k)
    ensures out.Object? ==>
      (CollapseLinks(reg, out, ls).value.Object?
       && CountNamed(CollapseLinks(reg, out, ls).value.members, SourceName) == CountNamed(out.members, SourceName))
    decreases |ls|
  {
    if |ls| > 0 {
      var link := reg.links[ls[0]];
      var next := ReplaceAt(out, link.instancePath, link.linkDom);
      forall k | k != InstancesName
        ensures Lookup(next, k) == Lookup(out, k)
      {
        ReplaceAtKeepsIndependent(out, link.instancePath, [k], link.linkDom);
      }
      CollapseKeepsRootMembers(reg, next, ls[1..]);
    }
  }

  /**
   * With every link of the template valid, anchored at distinct instances the stripped
   * copy has, and a single `Source` member, the file form has each instance replaced by its
   * link's stored form and carries no `Source`.
   */
  lemma SavedFormCollapsesLinks(env: Env, reg: Registry, id: TemplateId)
    requires Valid(reg) && id in reg.templates
    requires var copy := Sanitize(env, reg.templates[id].dom, StripDefaultValues).dom;
      copy.Object? && CountNamed(copy.members, SourceName) <= 1
      && forall l :: l in reg.links && reg.links[l].target == id ==>
        reg.links[l].valid && GetAt(copy, reg.links[l].instancePath).Some?
    requires forall l1, l2 :: l1 in reg.links && l2 in reg.links && l1 != l2 && reg.links[l1].target == id && reg.links[l2].target == id ==>
      reg.links[l1].instancePath != reg.links[l2].instancePath
    ensures CopyTemplateIntoPrefabFileFormat(env, reg, id).Some?
    ensures Lookup(CopyTemplateIntoPrefabFileFormat(env, reg, id).value, SourceName) == None
    ensures forall l :: l in reg.links && reg.links[l].target == id ==>
      GetAt(CopyTemplateIntoPrefabFileFormat(env, reg, id).value, reg.links[l].instancePath) == Some(reg.links[l].linkDom)
  {
    var copy := Sanitize(env, reg.templates[id].dom, StripDefaultValues).dom;
    var ls := TemplateLinks(reg, id);
    assert Collapsible(reg, copy, ls);
    assert DisjointLocations(reg, ls) by {
      forall i, j | 0 <= i < j < |ls| && ls[i] in reg.links && ls[j] in reg.links
        ensures Independent(reg.links[ls[i]].instancePath, reg.links[ls[j]].instancePath)
      {
        var p, q := reg.links[ls[i]].instancePath, reg.links[ls[j]].instancePath;
        assert p != q;
      }
    }
    CollapsePlacesLinkDoms(reg, copy, ls);
    CollapseKeepsRootMembers(reg, copy, ls);
    var collapsed := CollapseLinks(reg, copy, ls).value;
    forall l | l in reg.links && reg.links[l].target == id
      ensures GetAt(EraseMember(collapsed, SourceName), reg.links[l].instancePath) == Some(reg.links[l].linkDom)
    {
      var i :| 0 <= i < |ls| && ls[i] == l;
      EraseMemberKeepsOthers(collapsed, SourceName, reg.links[l].instancePath);
    }
  }

  /** A template's file form together with the registry key it is saved under. */
  datatype Stored = Stored(dom: Json, path: Path)

  /** The file form of a registered, valid template, or nothing. */
  function StoreTemplateIntoFileFormat(env: Env, reg: Registry, id: TemplateId): (r: Option<Stored>)
    requires Valid(reg)
    ensures r.Some? <==> id in reg.templates && reg.templates[id].valid && CopyTemplateIntoPrefabFileFormat(env, reg, id).Some?
    ensures r.Some? ==> r.value.path == reg.templates[id].path && reg.byPath[r.value.path] == id
  {
    if id !in reg.templates || !reg.templates[id].valid then None
    else match CopyTemplateIntoPrefabFileFormat(env, reg, id)
      case None => None
      case Some(dom) => Some(Stored(dom, reg.templates[id].path))
  }

  /** Serialises a document to a file; a failed serialisation or a refused write changes nothing. */
  function WriteJsonFile(env: Env, fs: FileSystem, dom: Json, path: Path): (r: Option<FileSystem>)
    ensures r.Some? <==> env.serialize(dom).Some? && !env.refusesWrite(path)
    ensures r.Some? ==> r.value == fs[path := env.serialize(dom).value]
  {
    match env.serialize(dom)
    case None => None
    case Some(text) => if env.refusesWrite(path) then None else Some(fs[path := text])
  }

  datatype Saved = Saved(ok: bool, fs: FileSystem, reg: Registry)

  /**
   * Saves a template to the location its key resolves to and clears its dirty flag. Any
   * failure leaves both the disk and the registry as they were.
   */
  function SaveTemplate(env: Env, fs: FileSystem, reg: Registry, id: TemplateId): (r: Saved)
    requires Valid(reg)
    ensures Valid(r.reg)
    ensures !r.ok ==> r.fs == fs && r.reg == reg
    ensures r.ok ==>
      (id in reg.templates && reg.templates[id].valid
       && r.reg == SetDirty(reg, id, false) && !r.reg.templates[id].dirty
       && SaveTemplateToString(env, reg, id).Some?
       && r.fs == fs[GetFullPath(env.paths, reg.templates[id].path) := SaveTemplateToString(env, reg, id).value])
    ensures r.ok <==>
      && SaveTemplateToString(env, reg, id).Some?
      && !env.refusesWrite(GetFullPath(env.paths, reg.templates[id].path))
  {
    match StoreTemplateIntoFileFormat(env, reg, id)
    case None => Saved(false, fs, reg)
    case Some(stored) =>
      match WriteJsonFile(env, fs, stored.dom, GetFullPath(env.paths, stored.path))
      case None => Saved(false, fs, reg)
      case Some(written) => Saved(true, written, SetDirty(reg, id, false))
  }

  /**
   * Saves a template to an explicit absolute location, which must be one whose registry
   * key is the template's own; otherwise the prefab could not be loaded back, and nothing
   * is written.
   */
  function SaveTemplateToFile(env: Env, fs: FileSystem, reg: Registry, id: TemplateId, absolutePath: Path): (r: Saved)
    requires Valid(reg) && IsAbsolute(absolutePath)
    ensures Valid(r.reg)
    ensures !r.ok ==> r.fs == fs && r.reg == reg
    ensures r.ok ==>
      (id in reg.templates && reg.templates[id].valid && GenerateRelativePath(env.paths, absolutePath) == reg.templates[id].path
       && r.reg == SetDirty(reg, id, false)
       && SaveTemplateToString(env, reg, id).Some?
       && r.fs == fs[absolutePath := SaveTemplateToString(env, reg, id).value])
    ensures r.ok <==>
      && SaveTemplateToString(env, reg, id).Some?
      && GenerateRelativePath(env.paths, absolutePath) == reg.templates[id].path
      && !env.refusesWrite(absolutePath)
    ensures id in reg.templates && GenerateRelativePath(env.paths, absolutePath) != reg.templates[id].path ==> !r.ok
  {
    match StoreTemplateIntoFileFormat(env, reg, id)
    case None => Saved(false, fs, reg)
    case Some(stored) =>
      if GenerateRelativePath(env.paths, absolutePath) != stored.path then Saved(false, fs, reg)
      else match WriteJsonFile(env, fs, stored.dom, absolutePath)
        case None => Saved(false, fs, reg)
        case Some(written) => Saved(true, written, SetDirty(reg, id, false))
  }

  /** Serialises a template's file form to a string; the registry is not touched. */
  function SaveTemplateToString(env: Env, reg: Registry, id: TemplateId): (r: Option<string>)
    requires Valid(reg)
    ensures r.Some? ==> id in reg.templates && reg.templates[id].valid
  {
    match StoreTemplateIntoFileFormat(env, reg, id)
    case None => None
    case Some(stored) => env.serialize(stored.dom)
  }

  /** What a successful save writes to disk is exactly the text saving to a string produces. */
  lemma SaveWritesTheSavedString(env: Env, fs: FileSystem, reg: Registry, id: TemplateId)
    requires Valid(reg) && SaveTemplate(env, fs, reg, id).ok
    ensures SaveTemplateToString(env, reg, id).Some?
    ensures SaveTemplate(env, fs, reg, id).fs[GetFullPath(env.paths, reg.templates[id].path)] == SaveTemplateToString(env, reg, id).value
  {
  }

  /**
   * Saving to the very location a template's key resolves to is the ordinary save, once
   * that location maps back to the key.
   */
  lemma SaveToOwnLocationIsSave(env: Env, fs: FileSystem, reg: Registry, id: TemplateId)
    requires Valid(reg) && id in reg.templates
    requires IsAbsolute(GetFullPath(env.paths, reg.templates[id].path))
    requires GenerateRelativePath(env.paths, GetFullPath(env.paths, reg.templates[id].path)) == reg.templates[id].path
    ensures SaveTemplateToFile(env, fs, reg, id, GetFullPath(env.paths, reg.templates[id].path)) == SaveTemplate(env, fs, reg, id)
  {
  }

  /**
   * With a codec that reads back what it writes, the file a successful save leaves on
   * disk parses to the template's file form.
   */
  lemma SavedFileReadsBack(env: Env, fs: FileSystem, reg: Registry, id: TemplateId)
    requires Valid(reg) && SaveTemplate(env, fs, reg, id).ok
    requires forall d :: env.serialize(d).Some? ==> env.parse(env.serialize(d).value) == Some(d)
    ensures var full := GetFullPath(env.paths, reg.templates[id].path);
      env.parse(SaveTemplate(env, fs, reg, id).fs[full]) == CopyTemplateIntoPrefabFileFormat(env, reg, id)
  {
    var stored := StoreTemplateIntoFileFormat(env, reg, id).value;
    assert env.serialize(stored.dom).Some?;
  }
}
