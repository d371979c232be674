/**
 * The template registry the prefab loader talks to: templates and links addressed by
 * integer ids, plus the path-to-id map that makes a prefab path name at most one
 * template. Id allocation is a counter; the registry's own reasons for refusing a new
 * template or link are passed in by the caller as a flag.
 */
module PrefabRegistry {
  import opened Wrappers
  import opened Dom
  import opened PrefabPaths

  type TemplateId = nat
  type LinkId = nat

  /** The sentinel ids are the largest 64-bit values. */
  const InvalidTemplateId: TemplateId := 0xFFFF_FFFF_FFFF_FFFF
  const InvalidLinkId: LinkId := 0xFFFF_FFFF_FFFF_FFFF

  /** A registered prefab document. `valid` stands for the template's own validity check. */
  datatype Template = Template(path: Path, dom: Json, loadedWithErrors: bool, dirty: bool, valid: bool)

  /**
   * A nesting: the `source` template appears as an instance inside the `target` template's
   * document at `instancePath`; `linkDom` is the reference-and-patches form stored on disk.
   */
  datatype Link = Link(source: TemplateId, target: TemplateId, instancePath: Pointer, linkDom: Json, valid: bool)

  datatype Registry = Registry(
    templates: map<TemplateId, Template>,
    byPath: map<Path, TemplateId>,
    links: map<LinkId, Link>,
    nextTemplateId: TemplateId,
    nextLinkId: LinkId)

  /** Where a link created for the instance `name` anchors inside its target's document. */
  function InstancePathOf(name: string): (p: Pointer)
    ensures |p| == 2 && p[0] == InstancesName && p[1] == name
  {
    [InstancesName, name]
  }

  /**
   * The registry invariant: ids come from the counters and never equal the sentinels,
   * each path names exactly one template and each template is found under its path,
   * and every link joins two registered templates at an entry of the target's `Instances`.
   */
  ghost predicate Valid(reg: Registry)
  {
    && reg.nextTemplateId <= InvalidTemplateId
    && reg.nextLinkId <= InvalidLinkId
    && (forall id :: id in reg.templates ==> id < reg.nextTemplateId)
    && (forall l :: l in reg.links ==> l < reg.nextLinkId)
    && (forall p :: p in reg.byPath ==> reg.byPath[p] in reg.templates && reg.templates[reg.byPath[p]].path == p)
    && (forall id :: id in reg.templates ==> reg.templates[id].path in reg.byPath && reg.byPath[reg.templates[id].path] == id)
    && (forall l :: l in reg.links ==>
          && reg.links[l].source in reg.templates && reg.links[l].target in reg.templates
          && |reg.links[l].instancePath| == 2 && reg.links[l].instancePath[0] == InstancesName)
  }

  /** `next` only adds to `prev`: nothing registered in `prev` is removed or altered. */
  ghost predicate Extends(prev: Registry, next: Registry)
  {
    && prev.nextTemplateId <= next.nextTemplateId
    && prev.nextLinkId <= next.nextLinkId
    && (forall id :: id in prev.templates ==> id in next.templates && next.templates[id] == prev.templates[id])
    && (forall p :: p in prev.byPath ==> p in next.byPath && next.byPath[p] == prev.byPath[p])
    && (forall l :: l in prev.links ==> l in next.links && next.links[l] == prev.links[l])
  }

  /** Every link added between `prev` and `next` points into a new template or into one of `targets`. */
  ghost predicate NewLinksInto(prev: Registry, next: Registry, targets: set<TemplateId>)
  {
    forall l :: l in next.links && l !in prev.links ==>
      next.links[l].target !in prev.templates || next.links[l].target in targets
  }

  lemma ExtendsTransitive(a: Registry, b: Registry, c: Registry)
    requires Extends(a, b) && Extends(b, c)
    ensures Extends(a, c)
  {
  }

  /** The registry lookup by path: the registered id, or the invalid id. */
  function TemplateIdFromPath(reg: Registry, path: Path): (r: TemplateId)
    requires Valid(reg)
    ensures r == InvalidTemplateId <==> path !in reg.byPath
    ensures r != InvalidTemplateId ==> r in reg.templates && reg.templates[r].path == path
  {
    if path in reg.byPath then reg.byPath[path] else InvalidTemplateId
  }

  datatype Added<Id> = Added(id: Id, reg: Registry)

  /**
   * Registers a new, valid, clean template under a path that has none yet; a refusal or
   * an exhausted id counter returns the invalid id and leaves the registry as it was.
   */
  function AddTemplate(reg: Registry, path: Path, dom: Json, refused: bool): (r: Added<TemplateId>)
    requires Valid(reg) && path !in reg.byPath
    ensures Valid(r.reg)
    ensures r.id == InvalidTemplateId ==> r.reg == reg
    ensures r.id != InvalidTemplateId ==>
      && r.id !in reg.templates
      && r.reg.templates == reg.templates[r.id := Template(path, dom, false, false, true)]
      && r.reg.byPath == reg.byPath[path := r.id]
      && r.reg.links == reg.links
    ensures Extends(reg, r.reg)
    ensures r.id == InvalidTemplateId <==> refused || reg.nextTemplateId >= InvalidTemplateId
  {
    if refused || reg.nextTemplateId >= InvalidTemplateId then Added(InvalidTemplateId, reg)
    else
      var id := reg.nextTemplateId;
      Added(id, reg.(templates := reg.templates[id := Template(path, dom, false, false, true)],
                     byPath := reg.byPath[path := id],
                     nextTemplateId := id + 1))
  }

  /**
   * Records that `source` is nested in `target` as the instance `name`, whose current
   * document becomes the link's on-disk form.
   */
  function AddLink(reg: Registry, source: TemplateId, target: TemplateId, name: string, instanceDom: Json, refused: bool)
    : (r: Added<LinkId>)
    requires Valid(reg) && source in reg.templates && target in reg.templates
    ensures Valid(r.reg)
    ensures Extends(reg, r.reg)
    ensures r.reg.templates == reg.templates && r.reg.byPath == reg.byPath
    ensures r.id == InvalidLinkId ==> r.reg == reg
    ensures r.id != InvalidLinkId ==>
      && r.id !in reg.links
      && r.id == r.reg.nextLinkId - 1
      && r.reg.links == reg.links[r.id := Link(source, target, InstancePathOf(name), instanceDom, true)]
    ensures r.id == InvalidLinkId <==> refused || reg.nextLinkId >= InvalidLinkId
  {
    if refused || reg.nextLinkId >= InvalidLinkId then Added(InvalidLinkId, reg)
    else
      var id := reg.nextLinkId;
      Added(id, reg.(links := reg.links[id := Link(source, target, InstancePathOf(name), instanceDom, true)],
                     nextLinkId := id + 1))
  }

  /** Replaces a template's record by one with the same path. */
  function UpdateTemplate(reg: Registry, id: TemplateId, t: Template): (r: Registry)
    requires Valid(reg) && id in reg.templates && t.path == reg.templates[id].path
    ensures Valid(r)
    ensures r.templates == reg.templates[id := t]
    ensures r.byPath == reg.byPath && r.links == reg.links
  {
    reg.(templates := reg.templates[id := t])
  }

  /** Sets a template's dirty flag, as the save entry points do after writing. */
  function SetDirty(reg: Registry, id: TemplateId, dirty: bool): (r: Registry)
    requires id in reg.templates
    ensures r.templates == reg.templates[id := reg.templates[id].(dirty := dirty)]
    ensures r.byPath == reg.byPath && r.links == reg.links
  {
    reg.(templates := reg.templates[id := reg.templates[id].(dirty := dirty)])
  }

  /** The ids below `n` of links whose target is `target`, in increasing order. */
  function LinksBelow(links: map<LinkId, Link>, target: TemplateId, n: nat): (r: seq<LinkId>)
    ensures forall l :: l in r <==> l < n && l in links && links[l].target == target
    ensures forall i, j :: 0 <= i < j < |r| ==> r[i] < r[j]
  {
    if n == 0 then []
    else
      var below := LinksBelow(links, target, n - 1);
      assert forall i :: 0 <= i < |below| ==> below[i] in below;
      if n - 1 in links && links[n - 1].target == target then below + [n - 1] else below
  }

  /** The links of a template: those nesting other templates inside it, oldest first. */
  function TemplateLinks(reg: Registry, target: TemplateId): (r: seq<LinkId>)
    requires Valid(reg)
    ensures forall l :: l in r <==> l in reg.links && reg.links[l].target == target
    ensures forall i, j :: 0 <= i < j < |r| ==> r[i] < r[j]
  {
    LinksBelow(reg.links, target, reg.nextLinkId)
  }
}
