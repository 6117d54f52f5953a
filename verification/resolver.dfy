/**
 * `LocalWriter`'s `getCommonSuperClass` callback: the common super class of
 * two internal type names, computed from the registry alone.
 *
 * Every failure in `Scuti.java` is a `NullPointerException` raised when a
 * null class or a null super name is dereferenced; `ResolveError` records
 * which name was missing.
 */
module Resolver {
  import opened Wrappers
  import opened ClassModel
  import opened Registry

  datatype ResolveError =
    | MissingClass(name: string)       // `assureLoaded(name)` gave null and it was dereferenced
    | MissingSuperName(owner: string)  // the class `owner` has a null super name that was dereferenced

  /** `isAssignableFrom`: the only assignability the resolver knows is to the root or to itself. */
  predicate IsAssignableFrom(first: string, second: string)
  {
    first == OBJECT || first == second
  }

  /**
   * The assignability test never consults the hierarchy: it holds exactly
   * when `first` stands above `second` in every registry, so it is sound for
   * any registry but misses every proper ancestor other than the root.
   */
  lemma AssignableIsHierarchyFree(first: string, second: string)
    ensures IsAssignableFrom(first, second) <==> forall reg: Registry :: Subsumes(reg, first, second)
  {
    if !IsAssignableFrom(first, second) {
      var empty := Registry(map[], map[]);
      forall p | |p| >= 2
        ensures !IsSuperChain(empty, p)
      {
        assert Lookup(empty, p[0]).None?;
        assert SuperOf(empty, p[0]) != Some(p[1]);
      }
      assert !Subsumes(empty, first, second);
    }
  }

  /**
   * The do-while loop of `deriveCommonSuperName`: step from `x` to its super
   * name until the stepped name is assignable from `y`.
   */
  function Walk(reg: Registry, x: string, y: string): (r: Result<string, ResolveError>)
    requires Acyclic(reg)
    ensures r.Success? ==> r.value == y || r.value == OBJECT
    decreases Depth(reg, x)
  {
    match Lookup(reg, x)
    case None => Failure(MissingClass(x))
    case Some(first) =>
      match first.superName
      case None => Failure(MissingSuperName(x))
      case Some(s) =>
        if IsAssignableFrom(s, y) then Success(s)
        else
          DepthDecreases(reg, x);
          Walk(reg, s, y)
  }

  /** `deriveCommonSuperName(x, y)`. */
  function DeriveCommonSuperName(reg: Registry, x: string, y: string): (r: Result<string, ResolveError>)
    requires Acyclic(reg)
    ensures r.Success? ==> r.value in {x, y, OBJECT}
  {
    if IsAssignableFrom(x, y) then Success(x)
    else if IsAssignableFrom(y, x) then Success(y)
    else
      match Lookup(reg, x)
      case None => Failure(MissingClass(x))
      case Some(first) =>
        if IsInterface(first.access) then Success(OBJECT)
        else
          match Lookup(reg, y)
          case None => Failure(MissingClass(y))
          case Some(second) =>
            if IsInterface(second.access) then Success(OBJECT)
            else Walk(reg, x, y)
  }

  /**
   * `getCommonSuperClass(a, b)`. Both derivations are evaluated before either
   * is inspected; when both give the root, the search restarts one level up
   * on both chains at once.
   */
  function CommonSuperClass(reg: Registry, a: string, b: string): (r: Result<string, ResolveError>)
    requires Acyclic(reg)
    ensures a == OBJECT || b == OBJECT ==> r == Success(OBJECT)
    ensures a == b ==> r == Success(a)
    decreases Depth(reg, a) + Depth(reg, b)
  {
    if a == OBJECT || b == OBJECT then Success(OBJECT)
    else
      match DeriveCommonSuperName(reg, a, b)
      case Failure(e) => Failure(e)
      case Success(firstToSecond) =>
        match DeriveCommonSuperName(reg, b, a)
        case Failure(e) => Failure(e)
        case Success(secondToFirst) =>
          if firstToSecond != OBJECT then Success(firstToSecond)
          else if secondToFirst != OBJECT then Success(secondToFirst)
          else
            match Lookup(reg, a)
            case None => Failure(MissingClass(a))
            case Some(first) =>
              match Lookup(reg, b)
              case None => Failure(MissingClass(b))
              case Some(second) =>
                match first.superName
                case None => Failure(MissingSuperName(a))
                case Some(sa) =>
                  match second.superName
                  // the recursive call receives a null second name: only the root test on the first survives it
                  case None => if sa == OBJECT then Success(OBJECT) else Failure(MissingSuperName(b))
                  case Some(sb) =>
                    DepthDecreases(reg, a);
                    DepthDecreases(reg, b);
                    CommonSuperClass(reg, sa, sb)
  }

  // ---------------------------------------------------------------------------
  // The chain walk against a path-based reference

  /**
   * `r` is the first name on the super chain strictly above `x` that is the
   * root or `y`: a chain leads from `x` to `r` without meeting either before.
   */
  ghost predicate FirstStopAbove(reg: Registry, x: string, y: string, r: string)
  {
    && (r == y || r == OBJECT)
    && exists p :: && IsSuperChain(reg, p) && |p| >= 2 && p[0] == x && p[|p| - 1] == r
                   && forall i :: 0 < i < |p| - 1 ==> p[i] != y && p[i] != OBJECT
  }

  lemma {:induction false} WalkSound(reg: Registry, x: string, y: string)
    requires Acyclic(reg)
    ensures Walk(reg, x, y).Success? ==> FirstStopAbove(reg, x, y, Walk(reg, x, y).value)
    decreases Depth(reg, x)
  {
    match Lookup(reg, x)
    case None =>
    case Some(first) =>
      match first.superName
      case None =>
      case Some(s) =>
        if IsAssignableFrom(s, y) {
          assert IsSuperChain(reg, [x, s]);
        } else {
          DepthDecreases(reg, x);
          WalkSound(reg, s, y);
          if Walk(reg, s, y).Success? {
            var r := Walk(reg, s, y).value;
            var p :| && IsSuperChain(reg, p) && |p| >= 2 && p[0] == s && p[|p| - 1] == r
                     && forall i :: 0 < i < |p| - 1 ==> p[i] != y && p[i] != OBJECT;
            ExtendChain(reg, x, p);
            var q := [x] + p;
            forall i | 0 < i < |q| - 1
              ensures q[i] != y && q[i] != OBJECT
            {
              assert q[i] == p[i - 1];
            }
            assert q[0] == x && q[|q| - 1] == r;
          }
        }
  }

  lemma {:induction false} WalkComplete(reg: Registry, x: string, y: string, r: string)
    requires Acyclic(reg)
    requires FirstStopAbove(reg, x, y, r)
    ensures Walk(reg, x, y) == Success(r)
    decreases Depth(reg, x)
  {
    var p :| && IsSuperChain(reg, p) && |p| >= 2 && p[0] == x && p[|p| - 1] == r
             && forall i :: 0 < i < |p| - 1 ==> p[i] != y && p[i] != OBJECT;
    assert SuperOf(reg, x) == Some(p[1]);
    if |p| > 2 {
      var tail := p[1..];
      assert IsSuperChain(reg, tail) by {
        forall i | 0 <= i < |tail| - 1
          ensures SuperOf(reg, tail[i]) == Some(tail[i + 1])
        {
          assert tail[i] == p[i + 1] && tail[i + 1] == p[i + 2];
        }
      }
      forall i | 0 < i < |tail| - 1
        ensures tail[i] != y && tail[i] != OBJECT
      {
        assert tail[i] == p[i + 1];
      }
      assert FirstStopAbove(reg, p[1], y, r);
      DepthDecreases(reg, x);
      WalkComplete(reg, p[1], y, r);
    }
  }

  /** The chain walk returns exactly the first root-or-`y` name above `x`, and fails when there is none. */
  lemma WalkFindsFirstStop(reg: Registry, x: string, y: string, r: string)
    requires Acyclic(reg)
    ensures Walk(reg, x, y) == Success(r) <==> FirstStopAbove(reg, x, y, r)
  {
    WalkSound(reg, x, y);
    if FirstStopAbove(reg, x, y, r) {
      WalkComplete(reg, x, y, r);
    }
  }

  // ---------------------------------------------------------------------------
  // deriveCommonSuperName

  /** The outcomes of `deriveCommonSuperName`, in the order `Scuti.java` tests them. */
  lemma DeriveCommonSuperNameCases(reg: Registry, x: string, y: string, r: string)
    requires Acyclic(reg)
    ensures IsAssignableFrom(x, y) ==> DeriveCommonSuperName(reg, x, y) == Success(x)
    ensures !IsAssignableFrom(x, y) && IsAssignableFrom(y, x) ==> DeriveCommonSuperName(reg, x, y) == Success(y)
    ensures !IsAssignableFrom(x, y) && !IsAssignableFrom(y, x) && Lookup(reg, x).None? ==>
      DeriveCommonSuperName(reg, x, y) == Failure(MissingClass(x))
    ensures !IsAssignableFrom(x, y) && !IsAssignableFrom(y, x) && Lookup(reg, x).Some?
            && IsInterface(Lookup(reg, x).value.access) ==>
      DeriveCommonSuperName(reg, x, y) == Success(OBJECT)
    ensures !IsAssignableFrom(x, y) && !IsAssignableFrom(y, x) && Lookup(reg, x).Some?
            && !IsInterface(Lookup(reg, x).value.access) && Lookup(reg, y).None? ==>
      DeriveCommonSuperName(reg, x, y) == Failure(MissingClass(y))
    ensures !IsAssignableFrom(x, y) && !IsAssignableFrom(y, x) && Lookup(reg, x).Some? && Lookup(reg, y).Some?
            && !IsInterface(Lookup(reg, x).value.access) && IsInterface(Lookup(reg, y).value.access) ==>
      DeriveCommonSuperName(reg, x, y) == Success(OBJECT)
    ensures !IsAssignableFrom(x, y) && !IsAssignableFrom(y, x) && Lookup(reg, x).Some? && Lookup(reg, y).Some?
            && !IsInterface(Lookup(reg, x).value.access) && !IsInterface(Lookup(reg, y).value.access) ==>
      (DeriveCommonSuperName(reg, x, y) == Success(r) <==> FirstStopAbove(reg, x, y, r))
  {
    WalkFindsFirstStop(reg, x, y, r);
  }

  /** Whatever `deriveCommonSuperName` returns stands above both of its arguments. */
  lemma DeriveSubsumesBoth(reg: Registry, x: string, y: string)
    requires Acyclic(reg)
    ensures DeriveCommonSuperName(reg, x, y).Success? ==>
      var z := DeriveCommonSuperName(reg, x, y).value;
      Subsumes(reg, z, x) && Subsumes(reg, z, y)
  {
    var d := DeriveCommonSuperName(reg, x, y);
    if d.Success? && d.value != OBJECT && d.value != x {
      assert d.value == y;
      WalkSound(reg, x, y);
      var p :| IsSuperChain(reg, p) && |p| >= 2 && p[0] == x && p[|p| - 1] == y
               && forall i :: 0 < i < |p| - 1 ==> p[i] != y && p[i] != OBJECT;
      assert AncestorOf(reg, y, x);
    }
  }

  // ---------------------------------------------------------------------------
  // getCommonSuperClass

  /**
   * A successful answer is a common ancestor of both arguments, counting
   * each argument as its own ancestor and the root as everyone's.
   */
  lemma {:induction false} CommonSuperClassIsCommonAncestor(reg: Registry, a: string, b: string)
    requires Acyclic(reg)
    ensures CommonSuperClass(reg, a, b).Success? ==>
      var r := CommonSuperClass(reg, a, b).value;
      Subsumes(reg, r, a) && Subsumes(reg, r, b)
    decreases Depth(reg, a) + Depth(reg, b)
  {
    if a != OBJECT && b != OBJECT && CommonSuperClass(reg, a, b).Success? {
      DeriveSubsumesBoth(reg, a, b);
      DeriveSubsumesBoth(reg, b, a);
      var ab := DeriveCommonSuperName(reg, a, b).value;
      var ba := DeriveCommonSuperName(reg, b, a).value;
      if ab == OBJECT && ba == OBJECT {
        var sa := SuperOf(reg, a).value;
        var r := CommonSuperClass(reg, a, b).value;
        if r != OBJECT {
          var sb := SuperOf(reg, b).value;
          assert CommonSuperClass(reg, a, b) == CommonSuperClass(reg, sa, sb);
          DepthDecreases(reg, a);
          DepthDecreases(reg, b);
          CommonSuperClassIsCommonAncestor(reg, sa, sb);
          SubsumesThroughSuper(reg, r, a, sa);
          SubsumesThroughSuper(reg, r, b, sb);
        }
      }
    }
  }

  // ---------------------------------------------------------------------------
  // When the resolver succeeds, and what it then finds

  /** `name` is the root or a class the registry can resolve. */
  predicate Resolvable(reg: Registry, name: string)
  {
    name == OBJECT || name in Names(reg)
  }

  /** Every registered class other than the root names a super class that is itself resolvable. */
  ghost predicate SupersResolvable(reg: Registry)
  {
    forall n :: n in Names(reg) && n != OBJECT ==>
      SuperOf(reg, n).Some? && Resolvable(reg, SuperOf(reg, n).value)
  }

  /** A class hierarchy as the JVM sees one: acyclic, closed, rooted at `java/lang/Object`, no interfaces. */
  ghost predicate ClassHierarchy(reg: Registry)
  {
    && Acyclic(reg)
    && SupersResolvable(reg)
    && SuperOf(reg, OBJECT).None?
    && forall n :: n in Names(reg) ==> !IsInterface(Lookup(reg, n).value.access)
  }

  lemma {:induction false} WalkTotal(reg: Registry, x: string, y: string)
    requires Acyclic(reg) && SupersResolvable(reg)
    requires x in Names(reg) && x != OBJECT
    ensures Walk(reg, x, y).Success?
    decreases Depth(reg, x)
  {
    var s := SuperOf(reg, x).value;
    if !IsAssignableFrom(s, y) {
      DepthDecreases(reg, x);
      WalkTotal(reg, s, y);
    }
  }

  lemma DeriveTotal(reg: Registry, x: string, y: string)
    requires Acyclic(reg) && SupersResolvable(reg)
    requires Resolvable(reg, x) && Resolvable(reg, y)
    ensures DeriveCommonSuperName(reg, x, y).Success?
  {
    if !IsAssignableFrom(x, y) && !IsAssignableFrom(y, x) {
      WalkTotal(reg, x, y);
    }
  }

  /** On a closed registry the resolver never dereferences a missing class or a missing super name. */
  lemma {:induction false} CommonSuperClassTotal(reg: Registry, a: string, b: string)
    requires Acyclic(reg) && SupersResolvable(reg)
    requires Resolvable(reg, a) && Resolvable(reg, b)
    ensures CommonSuperClass(reg, a, b).Success?
    decreases Depth(reg, a) + Depth(reg, b)
  {
    if a != OBJECT && b != OBJECT {
      DeriveTotal(reg, a, b);
      DeriveTotal(reg, b, a);
      var sa := SuperOf(reg, a).value;
      var sb := SuperOf(reg, b).value;
      DepthDecreases(reg, a);
      DepthDecreases(reg, b);
      CommonSuperClassTotal(reg, sa, sb);
    }
  }

  /** The first step of any chain out of `name` is its super name. */
  lemma AncestorThroughSuper(reg: Registry, anc: string, name: string)
    requires AncestorOf(reg, anc, name)
    ensures SuperOf(reg, name).Some?
    ensures Subsumes(reg, anc, SuperOf(reg, name).value)
  {
    var p :| IsSuperChain(reg, p) && |p| >= 2 && p[0] == name && p[|p| - 1] == anc;
    assert SuperOf(reg, name) == Some(p[1]);
    if |p| > 2 {
      var tail := p[1..];
      assert IsSuperChain(reg, tail) by {
        forall i | 0 <= i < |tail| - 1
          ensures SuperOf(reg, tail[i]) == Some(tail[i + 1])
        {
          assert tail[i] == p[i + 1] && tail[i + 1] == p[i + 2];
        }
      }
      assert tail[0] == p[1] && tail[|tail| - 1] == anc;
    }
  }

  /** A chain from `name` up to `anc` that meets `anc` only at its end. */
  lemma {:induction false} FirstArrival(reg: Registry, anc: string, p: seq<string>)
    requires IsSuperChain(reg, p) && |p| >= 2 && p[|p| - 1] == anc
    ensures exists q :: && IsSuperChain(reg, q) && |q| >= 2 && q[0] == p[0] && q[|q| - 1] == anc
                        && forall i :: 0 < i < |q| - 1 ==> q[i] != anc
    decreases |p|
  {
    if exists i :: 0 < i < |p| - 1 && p[i] == anc {
      var i :| 0 < i < |p| - 1 && p[i] == anc;
      var q := p[..i + 1];
      assert IsSuperChain(reg, q) by {
        forall j | 0 <= j < |q| - 1
          ensures SuperOf(reg, q[j]) == Some(q[j + 1])
        {
          assert q[j] == p[j] && q[j + 1] == p[j + 1];
        }
      }
      FirstArrival(reg, anc, q);
    }
  }

  /** With the root at the top of every chain, the walk from `y` finds any proper ancestor `x` of `y`. */
  lemma DeriveFindsAncestor(reg: Registry, x: string, y: string)
    requires ClassHierarchy(reg)
    requires x != OBJECT && x != y && Resolvable(reg, y)
    requires AncestorOf(reg, x, y)
    ensures DeriveCommonSuperName(reg, y, x) == Success(x)
  {
    var p :| IsSuperChain(reg, p) && |p| >= 2 && p[0] == y && p[|p| - 1] == x;
    FirstArrival(reg, x, p);
    var q :| && IsSuperChain(reg, q) && |q| >= 2 && q[0] == y && q[|q| - 1] == x
             && forall i :: 0 < i < |q| - 1 ==> q[i] != x;
    forall i | 0 < i < |q| - 1
      ensures q[i] != OBJECT
    {
      assert SuperOf(reg, q[i]) == Some(q[i + 1]);
    }
    assert FirstStopAbove(reg, y, x, x);
    WalkFindsFirstStop(reg, y, x, x);
    assert y != OBJECT by {
      assert SuperOf(reg, q[0]) == Some(q[1]);
    }
    assert x in Names(reg) by {
      assert SuperOf(reg, q[|q| - 2]) == Some(x);
    }
  }

  /**
   * On a class hierarchy the resolver answers, and its answer is the nearest
   * common ancestor: every common ancestor of `a` and `b` stands above it.
   */
  lemma {:induction false} CommonSuperClassIsLeast(reg: Registry, a: string, b: string, c: string)
    requires ClassHierarchy(reg)
    requires Resolvable(reg, a) && Resolvable(reg, b)
    requires Subsumes(reg, c, a) && Subsumes(reg, c, b)
    ensures CommonSuperClass(reg, a, b).Success?
    ensures Subsumes(reg, c, CommonSuperClass(reg, a, b).value)
    decreases Depth(reg, a) + Depth(reg, b)
  {
    CommonSuperClassTotal(reg, a, b);
    var r := CommonSuperClass(reg, a, b).value;
    if a == OBJECT || b == OBJECT {
      if c != OBJECT {
        var n := if a == OBJECT then a else b;
        assert c == n || AncestorOf(reg, c, n);
        if c != n {
          AncestorThroughSuper(reg, c, n);
        }
      }
    } else if c != OBJECT && a != b {
      DeriveTotal(reg, a, b);
      DeriveTotal(reg, b, a);
      var ab := DeriveCommonSuperName(reg, a, b).value;
      var ba := DeriveCommonSuperName(reg, b, a).value;
      if ab == OBJECT && ba == OBJECT {
        if c == a {
          DeriveFindsAncestor(reg, a, b);
          assert false;
        }
        if c == b {
          DeriveFindsAncestor(reg, b, a);
          assert false;
        }
        AncestorThroughSuper(reg, c, a);
        AncestorThroughSuper(reg, c, b);
        var sa := SuperOf(reg, a).value;
        var sb := SuperOf(reg, b).value;
        assert r == CommonSuperClass(reg, sa, sb).value;
        DepthDecreases(reg, a);
        DepthDecreases(reg, b);
        CommonSuperClassIsLeast(reg, sa, sb, c);
      } else if ab != OBJECT {
        assert r == ab;
        assert ab == a || ab == b;
      } else {
        assert r == ba;
        assert ba == a || ba == b;
      }
    }
  }

  /**
   * The interface approximation: once either class is an interface (whose
   * super name is the root, as every interface's is), the answer is the root.
   */
  lemma InterfaceMeetsAtObject(reg: Registry, a: string, b: string)
    requires Acyclic(reg)
    requires a != b && a != OBJECT && b != OBJECT
    requires Lookup(reg, a).Some? && Lookup(reg, b).Some?
    requires SuperOf(reg, a).Some? && SuperOf(reg, b).Some?
    requires || (IsInterface(Lookup(reg, a).value.access) && SuperOf(reg, a) == Some(OBJECT))
             || (IsInterface(Lookup(reg, b).value.access) && SuperOf(reg, b) == Some(OBJECT))
    ensures CommonSuperClass(reg, a, b) == Success(OBJECT)
  {
    assert DeriveCommonSuperName(reg, a, b) == Success(OBJECT);
    assert DeriveCommonSuperName(reg, b, a) == Success(OBJECT);
    DepthDecreases(reg, a);
    DepthDecreases(reg, b);
    assert CommonSuperClass(reg, a, b) == CommonSuperClass(reg, SuperOf(reg, a).value, SuperOf(reg, b).value);
  }

  // ---------------------------------------------------------------------------
  // What the resolver depends on

  /**
   * Two registries that resolve the same names to classes with the same
   * super names and the same interface bit.
   */
  ghost predicate SameHierarchy(r1: Registry, r2: Registry)
  {
    && Names(r1) == Names(r2)
    && forall n :: n in Names(r1) ==>
         && SuperOf(r1, n) == SuperOf(r2, n)
         && (IsInterface(Lookup(r1, n).value.access) <==> IsInterface(Lookup(r2, n).value.access))
  }

  lemma SameHierarchyAcyclic(r1: Registry, r2: Registry)
    requires Acyclic(r1) && SameHierarchy(r1, r2)
    ensures Acyclic(r2)
  {
    var rank: string -> nat :| RankedBy(r1, rank);
    assert RankedBy(r2, rank);
  }

  lemma {:induction false} SameHierarchyWalk(r1: Registry, r2: Registry, x: string, y: string)
    requires Acyclic(r1) && Acyclic(r2) && SameHierarchy(r1, r2)
    ensures Walk(r1, x, y) == Walk(r2, x, y)
    decreases Depth(r1, x)
  {
    if x in Names(r1) {
      assert SuperOf(r1, x) == SuperOf(r2, x);
      if SuperOf(r1, x).Some? && !IsAssignableFrom(SuperOf(r1, x).value, y) {
        DepthDecreases(r1, x);
        SameHierarchyWalk(r1, r2, SuperOf(r1, x).value, y);
      }
    }
  }

  lemma SameHierarchyDerive(r1: Registry, r2: Registry, x: string, y: string)
    requires Acyclic(r1) && Acyclic(r2) && SameHierarchy(r1, r2)
    ensures DeriveCommonSuperName(r1, x, y) == DeriveCommonSuperName(r2, x, y)
  {
    SameHierarchyWalk(r1, r2, x, y);
    assert Lookup(r1, x).Some? <==> Lookup(r2, x).Some? by { LookupIsOverride(r1, x); LookupIsOverride(r2, x); }
    assert Lookup(r1, y).Some? <==> Lookup(r2, y).Some? by { LookupIsOverride(r1, y); LookupIsOverride(r2, y); }
  }

  /**
   * The resolver reads nothing of a class but its presence, its super name
   * and its interface bit: registries that agree on those give the same
   * answers and the same failures.
   */
  lemma {:induction false} SameHierarchySameAnswer(r1: Registry, r2: Registry, a: string, b: string)
    requires Acyclic(r1) && SameHierarchy(r1, r2)
    ensures Acyclic(r2)
    ensures CommonSuperClass(r1, a, b) == CommonSuperClass(r2, a, b)
    decreases Depth(r1, a) + Depth(r1, b)
  {
    SameHierarchyAcyclic(r1, r2);
    if a != OBJECT && b != OBJECT {
      SameHierarchyDerive(r1, r2, a, b);
      SameHierarchyDerive(r1, r2, b, a);
      if a in Names(r1) && b in Names(r1) && SuperOf(r1, a).Some? && SuperOf(r1, b).Some? {
        assert SuperOf(r1, a) == SuperOf(r2, a) && SuperOf(r1, b) == SuperOf(r2, b);
        DepthDecreases(r1, a);
        DepthDecreases(r1, b);
        SameHierarchySameAnswer(r1, r2, SuperOf(r1, a).value, SuperOf(r1, b).value);
      } else if a in Names(r1) && b in Names(r1) {
        assert SuperOf(r1, a) == SuperOf(r2, a) && SuperOf(r1, b) == SuperOf(r2, b);
      }
    }
  }
}
