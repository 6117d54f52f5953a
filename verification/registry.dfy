/**
 * The two-partition class registry of `Scuti`: `classes` holds the classes
 * read from the input archive, `libraries` the reference classes read from
 * the library archives. `assureLoaded` consults them in that order.
 */
module Registry {
  import opened Wrappers
  import opened ClassModel

  datatype Registry = Registry(classes: map<string, ClassNode>, libraries: map<string, ClassNode>)

  /**
   * `assureLoaded`: the input class if there is one, else the library class,
   * else `None` (`Scuti.java` throws and catches its own exception and returns null).
   * An input class shadows a library class of the same name.
   */
  function Lookup(reg: Registry, name: string): (r: Option<ClassNode>)
    ensures r.Some? <==> name in reg.classes || name in reg.libraries
    ensures name in reg.classes ==> r == Some(reg.classes[name])
    ensures name !in reg.classes && name in reg.libraries ==> r == Some(reg.libraries[name])
  {
    if name in reg.classes then Some(reg.classes[name])
    else if name in reg.libraries then Some(reg.libraries[name])
    else None
  }

  /** Every name the registry can resolve. */
  function Names(reg: Registry): set<string>
  {
    reg.classes.Keys + reg.libraries.Keys
  }

  /** The super name recorded by the class `name` resolves to, if it resolves and has one. */
  function SuperOf(reg: Registry, name: string): Option<string>
  {
    match Lookup(reg, name)
    case None => None
    case Some(c) => c.superName
  }

  /** Each map is keyed by the recorded name of the class it holds. */
  ghost predicate Keyed(m: map<string, ClassNode>)
  {
    forall k :: k in m ==> m[k].name == k
  }

  /**
   * The registry seen as one map: the libraries overridden by the input
   * classes. Lookup agrees with it on every name, so a name held only by a
   * library resolves exactly as it would if it were an input class.
   */
  lemma LookupIsOverride(reg: Registry, name: string)
    ensures Lookup(reg, name) ==
      (if name in reg.libraries + reg.classes then Some((reg.libraries + reg.classes)[name]) else None)
    ensures Lookup(reg, name).Some? <==> name in Names(reg)
  {
  }

  // ---------------------------------------------------------------------------
  // Acyclicity and the depth measure

  /** `rank` strictly decreases along every super link between registered classes. */
  ghost predicate RankedBy(reg: Registry, rank: string -> nat)
  {
    forall n :: n in Names(reg) && SuperOf(reg, n).Some? && SuperOf(reg, n).value in Names(reg) ==>
      rank(SuperOf(reg, n).value) < rank(n)
  }

  /** No class reaches itself through its chain of super names. */
  ghost predicate Acyclic(reg: Registry)
  {
    exists rank: string -> nat :: RankedBy(reg, rank)
  }

  /** A measure that drops along every super link: rank + 1 for registered names, 0 otherwise. */
  ghost function Depth(reg: Registry, name: string): nat
    requires Acyclic(reg)
  {
    var rank: string -> nat :| RankedBy(reg, rank);
    if name in Names(reg) then rank(name) + 1 else 0
  }

  /** Following one super link lowers the depth, whether or not the super name is registered. */
  lemma DepthDecreases(reg: Registry, name: string)
    requires Acyclic(reg)
    requires SuperOf(reg, name).Some?
    ensures Depth(reg, SuperOf(reg, name).value) < Depth(reg, name)
  {
  }

  // ---------------------------------------------------------------------------
  // Super chains

  /** `p` follows super links: each name's registered class names the next one as its super. */
  ghost predicate IsSuperChain(reg: Registry, p: seq<string>)
  {
    forall i :: 0 <= i < |p| - 1 ==> SuperOf(reg, p[i]) == Some(p[i + 1])
  }

  /** `anc` is reached from `name` by one or more super links. */
  ghost predicate AncestorOf(reg: Registry, anc: string, name: string)
  {
    exists p :: IsSuperChain(reg, p) && |p| >= 2 && p[0] == name && p[|p| - 1] == anc
  }

  /**
   * `anc` stands above `name` the way the resolver's assignability test sees
   * it: `anc` is the root, `name` itself, or one of its ancestors.
   */
  ghost predicate Subsumes(reg: Registry, anc: string, name: string)
  {
    anc == OBJECT || anc == name || AncestorOf(reg, anc, name)
  }

  /** A super link followed by a chain is a chain. */
  lemma ExtendChain(reg: Registry, name: string, p: seq<string>)
    requires IsSuperChain(reg, p) && |p| >= 1
    requires SuperOf(reg, name) == Some(p[0])
    ensures IsSuperChain(reg, [name] + p)
  {
    var q := [name] + p;
    forall i | 0 <= i < |q| - 1
      ensures SuperOf(reg, q[i]) == Some(q[i + 1])
    {
      if i > 0 {
        assert q[i] == p[i - 1] && q[i + 1] == p[i];
      }
    }
  }

  /** An ancestor of the super class is an ancestor of the class. */
  lemma SubsumesThroughSuper(reg: Registry, anc: string, name: string, sup: string)
    requires SuperOf(reg, name) == Some(sup)
    requires Subsumes(reg, anc, sup)
    ensures Subsumes(reg, anc, name)
  {
    if anc == OBJECT {
    } else if anc == sup {
      assert IsSuperChain(reg, [name, sup]);
    } else {
      var p :| IsSuperChain(reg, p) && |p| >= 2 && p[0] == sup && p[|p| - 1] == anc;
      ExtendChain(reg, name, p);
      var q := [name] + p;
      assert q[0] == name && q[|q| - 1] == anc;
    }
  }
}
