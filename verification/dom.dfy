/**
 * The prefab document model: a JSON-like tree whose objects keep their members in
 * document order and may, as in the parser the editor uses, hold the same name twice.
 * Lookups find the FIRST member with a name, as a JSON pointer does.
 */
module Dom {
  import opened Wrappers

  datatype Json =
    | Null
    | Bool(b: bool)
    | Number(n: int)
    | Str(s: string)
    | Array(items: seq<Json>)
    | Object(members: seq<Member>)

  datatype Member = Member(name: string, value: Json)

  /** A JSON pointer such as `/Instances/Foo`, kept as its list of member names. */
  type Pointer = seq<string>

  /** Name of the transient member that carries a template's own path while it is in memory. */
  const SourceName: string := "Source"
  /** Name of the member that maps instance names to nested-instance documents. */
  const InstancesName: string := "Instances"

  /** Value of the first member called `name`. */
  function Find(ms: seq<Member>, name: string): Option<Json>
  {
    if |ms| == 0 then None
    else if ms[0].name == name then Some(ms[0].value)
    else Find(ms[1..], name)
  }

  /** Number of members called `name`. */
  function CountNamed(ms: seq<Member>, name: string): nat
  {
    if |ms| == 0 then 0
    else (if ms[0].name == name then 1 else 0) + CountNamed(ms[1..], name)
  }

  /** Overwrites the first member called `name`, or appends one when there is none. */
  function Put(ms: seq<Member>, name: string, x: Json): (r: seq<Member>)
    ensures Find(r, name) == Some(x)
    ensures forall k :: k != name ==> Find(r, k) == Find(ms, k)
    ensures CountNamed(r, name) == if CountNamed(ms, name) == 0 then 1 else CountNamed(ms, name)
    ensures forall k :: k != name ==> CountNamed(r, k) == CountNamed(ms, k)
  {
    if |ms| == 0 then [Member(name, x)]
    else if ms[0].name == name then [Member(name, x)] + ms[1..]
    else [ms[0]] + Put(ms[1..], name, x)
  }

  /** Removes the first member called `name`, keeping the order of the others. */
  function EraseFirst(ms: seq<Member>, name: string): (r: seq<Member>)
    ensures forall k :: k != name ==> Find(r, k) == Find(ms, k)
    ensures CountNamed(r, name) == if CountNamed(ms, name) == 0 then 0 else CountNamed(ms, name) - 1
  {
    if |ms| == 0 then []
    else if ms[0].name == name then ms[1..]
    else [ms[0]] + EraseFirst(ms[1..], name)
  }

  lemma {:induction false} NoneNamedNotFound(ms: seq<Member>, name: string)
    requires CountNamed(ms, name) == 0
    ensures Find(ms, name) == None
  {
    if |ms| > 0 {
      NoneNamedNotFound(ms[1..], name);
    }
  }

  /** The member `name` of an object; nothing for any other kind of value. */
  function Lookup(v: Json, name: string): Option<Json>
  {
    if v.Object? then Find(v.members, name) else None
  }

  /**
   * Sets the root member `name`, as setting the JSON pointer `/name` does: a root that is
   * not an object is replaced by an object holding only that member.
   */
  function SetMember(v: Json, name: string, x: Json): (r: Json)
    ensures r.Object?
    ensures Lookup(r, name) == Some(x)
    ensures v.Object? ==> forall k :: k != name ==> Lookup(r, k) == Lookup(v, k)
  {
    if v.Object? then Object(Put(v.members, name, x)) else Object([Member(name, x)])
  }

  /** Erases the root member `name`, as erasing the JSON pointer `/name` does; other values are left alone. */
  function EraseMember(v: Json, name: string): (r: Json)
    ensures forall k :: k != name ==> Lookup(r, k) == Lookup(v, k)
    ensures v.Object? && CountNamed(v.members, name) <= 1 ==> Lookup(r, name) == None
  {
    if v.Object? then
      var ms := EraseFirst(v.members, name);
      if CountNamed(v.members, name) <= 1 then NoneNamedNotFound(ms, name); Object(ms)
      else Object(ms)
    else v
  }

  /** Resolves a pointer: each step selects the first member of that name. */
  function GetAt(v: Json, p: Pointer): Option<Json>
    decreases |p|
  {
    if |p| == 0 then Some(v)
    else match Lookup(v, p[0])
      case None => None
      case Some(child) => GetAt(child, p[1..])
  }

  /** Overwrites the value a resolvable pointer designates. */
  function ReplaceAt(v: Json, p: Pointer, x: Json): (r: Json)
    requires GetAt(v, p).Some?
    ensures GetAt(r, p) == Some(x)
    ensures |p| > 0 ==> v.Object? && r.Object? && forall k :: k != p[0] ==> CountNamed(r.members, k) == CountNamed(v.members, k)
    decreases |p|
  {
    if |p| == 0 then x
    else
      var child := Lookup(v, p[0]).value;
      Object(Put(v.members, p[0], ReplaceAt(child, p[1..], x)))
  }

  /** True when `p` is `q` or lies on the way to `q`. */
  predicate IsPrefix(p: Pointer, q: Pointer)
  {
    |p| <= |q| && q[..|p|] == p
  }

  /** Two pointers address disjoint parts of a document. */
  predicate Independent(p: Pointer, q: Pointer)
  {
    !IsPrefix(p, q) && !IsPrefix(q, p)
  }

  lemma PrefixOfCons(p: Pointer, q: Pointer)
    requires |p| > 0 && |q| > 0 && p[0] == q[0]
    ensures IsPrefix(p, q) <==> IsPrefix(p[1..], q[1..])
  {
    if |p| <= |q| {
      assert q[..|p|] == [q[0]] + q[1..][..|p| - 1];
      assert p == [p[0]] + p[1..];
    }
  }

  /** Overwriting one location never changes what an independent pointer reads. */
  lemma {:induction false} ReplaceAtKeepsIndependent(v: Json, p: Pointer, q: Pointer, x: Json)
    requires GetAt(v, p).Some?
    requires Independent(p, q)
    ensures GetAt(ReplaceAt(v, p, x), q) == GetAt(v, q)
    decreases |p|
  {
    var r := ReplaceAt(v, p, x);
    assert IsPrefix([], q) && IsPrefix([], p);
    var child := Lookup(v, p[0]).value;
    if p[0] == q[0] {
      PrefixOfCons(p, q);
      PrefixOfCons(q, p);
      ReplaceAtKeepsIndependent(child, p[1..], q[1..], x);
    } else {
      assert Lookup(r, q[0]) == Lookup(v, q[0]);
    }
  }

  /** Erasing a root member leaves every pointer that starts elsewhere unchanged. */
  lemma EraseMemberKeepsOthers(v: Json, name: string, q: Pointer)
    requires |q| > 0 && q[0] != name
    ensures GetAt(EraseMember(v, name), q) == GetAt(v, q)
  {
  }

  /** The members of the `Instances` object, in document order; none when it is absent or not an object. */
  function InstanceMembers(dom: Json): seq<Member>
  {
    match Lookup(dom, InstancesName)
    case Some(Object(ms)) => ms
    case _ => []
  }

  /** Injecting the transient `Source` member never changes the `Instances` a document lists. */
  lemma SetSourceKeepsInstances(dom: Json, path: string)
    ensures InstanceMembers(SetMember(dom, SourceName, Str(path))) == InstanceMembers(dom)
  {
    assert InstancesName != SourceName;
    if !dom.Object? {
      var ms := [Member(SourceName, Str(path))];
      assert Find(ms, InstancesName) == Find(ms[1..], InstancesName);
    }
  }
}
