/**
 * The three passes `run` applies to every input class, in this order:
 * `changeSignature`, `syntheticAccess`, `bridgeAccess`. Each reads and
 * writes only the class it is given.
 */
module Transforms {
  import opened Wrappers
  import opened ClassModel
  import opened Registry
  import opened Resolver

  /** `Short.MAX_VALUE`, the length of the filler string. */
  const SHORT_MAX_VALUE: nat := 32767

  /** The filler written over every signature and source attribute: `Short.MAX_VALUE` spaces. */
  function MassiveString(): string
  {
    seq(SHORT_MAX_VALUE, _ => ' ')
  }

  /** `getMassiveString`: appends one space per iteration of a counted loop. */
  method GetMassiveString() returns (s: string)
    ensures |s| == SHORT_MAX_VALUE
    ensures forall i :: 0 <= i < |s| ==> s[i] == ' '
    ensures s == MassiveString()
  {
    s := [];
    var i := 0;
    while i < SHORT_MAX_VALUE
      invariant 0 <= i <= SHORT_MAX_VALUE
      invariant |s| == i
      invariant forall k :: 0 <= k < i ==> s[k] == ' '
    {
      s := s + [' '];
      i := i + 1;
    }
  }

  /** `after` is `before` with `flag` set and every other bit untouched. */
  predicate SetsOnly(before: Flags, after: Flags, flag: Flags)
  {
    after & flag == flag && after & !flag == before & !flag
  }

  /** Applies `f` to each member, keeping the order. */
  function MapMembers(ms: seq<Member>, f: Member -> Member): (r: seq<Member>)
    ensures |r| == |ms|
    ensures forall i :: 0 <= i < |ms| ==> r[i] == f(ms[i])
  {
    seq(|ms|, i requires 0 <= i < |ms| => f(ms[i]))
  }

  // ---------------------------------------------------------------------------
  // changeSignature

  function BlankSignature(m: Member): Member
  {
    m.(signature := Some(MassiveString()))
  }

  /**
   * `changeSignature`: the three class attributes and every member signature
   * become the filler, and nothing else changes.
   */
  function ChangeSignature(c: ClassNode): (r: ClassNode)
    ensures r.sourceFile == Some(MassiveString())
    ensures r.sourceDebug == Some(MassiveString())
    ensures r.signature == Some(MassiveString())
    ensures |r.fields| == |c.fields| && |r.methods| == |c.methods|
    ensures forall i :: 0 <= i < |r.fields| ==>
      r.fields[i].signature == Some(MassiveString()) && r.fields[i].(signature := c.fields[i].signature) == c.fields[i]
    ensures forall i :: 0 <= i < |r.methods| ==>
      r.methods[i].signature == Some(MassiveString()) && r.methods[i].(signature := c.methods[i].signature) == c.methods[i]
    ensures r.(signature := c.signature, sourceFile := c.sourceFile, sourceDebug := c.sourceDebug,
               fields := c.fields, methods := c.methods) == c
  {
    c.(sourceFile := Some(MassiveString()),
       sourceDebug := Some(MassiveString()),
       signature := Some(MassiveString()),
       fields := MapMembers(c.fields, BlankSignature),
       methods := MapMembers(c.methods, BlankSignature))
  }

  // ---------------------------------------------------------------------------
  // syntheticAccess

  function MarkSynthetic(m: Member): Member
  {
    m.(access := m.access | ACC_SYNTHETIC)
  }

  /** `syntheticAccess`: the class and every field and method gain the synthetic bit, and nothing else changes. */
  function SyntheticAccess(c: ClassNode): (r: ClassNode)
    ensures SetsOnly(c.access, r.access, ACC_SYNTHETIC)
    ensures |r.fields| == |c.fields| && |r.methods| == |c.methods|
    ensures forall i :: 0 <= i < |r.fields| ==>
      SetsOnly(c.fields[i].access, r.fields[i].access, ACC_SYNTHETIC)
      && r.fields[i].(access := c.fields[i].access) == c.fields[i]
    ensures forall i :: 0 <= i < |r.methods| ==>
      SetsOnly(c.methods[i].access, r.methods[i].access, ACC_SYNTHETIC)
      && r.methods[i].(access := c.methods[i].access) == c.methods[i]
    ensures r.(access := c.access, fields := c.fields, methods := c.methods) == c
  {
    c.(access := c.access | ACC_SYNTHETIC,
       fields := MapMembers(c.fields, MarkSynthetic),
       methods := MapMembers(c.methods, MarkSynthetic))
  }

  // ---------------------------------------------------------------------------
  // bridgeAccess

  /** The filter of `bridgeAccess`: not `<init>`/`<clinit>` (no `<` in the name) and not abstract. */
  predicate BridgeEligible(m: Member)
  {
    '<' !in m.name && !IsAbstract(m.access)
  }

  function MarkBridge(m: Member): Member
  {
    if BridgeEligible(m) then m.(access := m.access | ACC_BRIDGE) else m
  }

  /**
   * `bridgeAccess`: exactly the methods that are neither initializers nor
   * abstract gain the bridge bit; fields, the class and every other method
   * are left as they were.
   */
  function BridgeAccess(c: ClassNode): (r: ClassNode)
    ensures |r.methods| == |c.methods|
    ensures forall i :: 0 <= i < |r.methods| ==>
      && (BridgeEligible(c.methods[i]) ==> SetsOnly(c.methods[i].access, r.methods[i].access, ACC_BRIDGE))
      && (!BridgeEligible(c.methods[i]) ==> r.methods[i] == c.methods[i])
      && r.methods[i].(access := c.methods[i].access) == c.methods[i]
    ensures r.(methods := c.methods) == c
  {
    c.(methods := MapMembers(c.methods, MarkBridge))
  }

  /** The three passes, in the order `run` applies them. */
  function Transform(c: ClassNode): ClassNode
  {
    BridgeAccess(SyntheticAccess(ChangeSignature(c)))
  }

  /** `run`'s loop over `classes.values()`: every input class transformed in place, keys unchanged. */
  function TransformAll(classes: map<string, ClassNode>): (r: map<string, ClassNode>)
    ensures r.Keys == classes.Keys
    ensures forall k :: k in r ==> r[k] == Transform(classes[k])
  {
    map k | k in classes :: Transform(classes[k])
  }

  // ---------------------------------------------------------------------------
  // Properties of the passes

  // Member-level facts: the synthetic bit is neither the abstract bit nor the bridge bit.

  lemma SyntheticKeepsEligibility(m: Member)
    ensures BridgeEligible(MarkSynthetic(m)) == BridgeEligible(m)
    ensures BridgeEligible(BlankSignature(m)) == BridgeEligible(m)
  {
    SyntheticBits(m.access);
  }

  lemma MarkSyntheticTwice(m: Member)
    ensures MarkSynthetic(MarkSynthetic(m)) == MarkSynthetic(m)
  {
    SyntheticBits(m.access);
  }

  lemma MarkBridgeTwice(m: Member)
    ensures MarkBridge(MarkBridge(m)) == MarkBridge(m)
  {
    if BridgeEligible(m) {
      var b := MarkBridge(m);
      BridgeBits(m.access);
      assert BridgeEligible(b);
    }
  }

  lemma MarkersCommute(m: Member)
    ensures MarkBridge(MarkSynthetic(m)) == MarkSynthetic(MarkBridge(m))
  {
    if BridgeEligible(m) {
      EligibleMarkersCommute(m);
    } else {
      SyntheticKeepsEligibility(m);
    }
  }

  lemma EligibleMarkersCommute(m: Member)
    requires BridgeEligible(m)
    ensures MarkBridge(MarkSynthetic(m)) == MarkSynthetic(MarkBridge(m))
  {
    SyntheticKeepsEligibility(m);
    FlagOrderIrrelevant(m.access);
  }

  lemma BlankingCommutesWithMarkers(m: Member)
    ensures MarkSynthetic(BlankSignature(m)) == BlankSignature(MarkSynthetic(m))
    ensures MarkBridge(BlankSignature(m)) == BlankSignature(MarkBridge(m))
  {
    SyntheticKeepsEligibility(m);
  }

  /** One method after all three passes. */
  lemma MethodOutcome(m: Member)
    ensures var r := MarkBridge(MarkSynthetic(BlankSignature(m)));
      && KeepsBits(m.access, r.access)
      && r.access & ACC_SYNTHETIC == ACC_SYNTHETIC
      && (BridgeEligible(m) ==> r.access & ACC_BRIDGE == ACC_BRIDGE)
      && (!BridgeEligible(m) ==> r.access & ACC_BRIDGE == m.access & ACC_BRIDGE)
  {
    if BridgeEligible(m) {
      EligibleMethodOutcome(m);
    } else {
      IneligibleMethodOutcome(m);
    }
  }

  lemma EligibleMethodOutcome(m: Member)
    requires BridgeEligible(m)
    ensures MarkBridge(MarkSynthetic(BlankSignature(m))).access == (m.access | ACC_SYNTHETIC) | ACC_BRIDGE
    ensures KeepsBits(m.access, (m.access | ACC_SYNTHETIC) | ACC_BRIDGE)
    ensures ((m.access | ACC_SYNTHETIC) | ACC_BRIDGE) & ACC_SYNTHETIC == ACC_SYNTHETIC
    ensures ((m.access | ACC_SYNTHETIC) | ACC_BRIDGE) & ACC_BRIDGE == ACC_BRIDGE
  {
    SyntheticKeepsEligibility(m);
    SyntheticKeepsEligibility(BlankSignature(m));
    BothBits(m.access);
  }

  lemma IneligibleMethodOutcome(m: Member)
    requires !BridgeEligible(m)
    ensures MarkBridge(MarkSynthetic(BlankSignature(m))).access == m.access | ACC_SYNTHETIC
    ensures KeepsBits(m.access, m.access | ACC_SYNTHETIC)
    ensures (m.access | ACC_SYNTHETIC) & ACC_SYNTHETIC == ACC_SYNTHETIC
    ensures (m.access | ACC_SYNTHETIC) & ACC_BRIDGE == m.access & ACC_BRIDGE
  {
    SyntheticKeepsEligibility(m);
    SyntheticKeepsEligibility(BlankSignature(m));
    SyntheticBits(m.access);
  }

  // Class-level properties

  /** The flag passes only set bits: applying either one twice is applying it once. */
  lemma FlagPassesIdempotent(c: ClassNode)
    ensures SyntheticAccess(SyntheticAccess(c)) == SyntheticAccess(c)
    ensures BridgeAccess(BridgeAccess(c)) == BridgeAccess(c)
  {
    SyntheticIdempotent(c);
    BridgeIdempotent(c);
  }

  lemma SyntheticIdempotent(c: ClassNode)
    ensures SyntheticAccess(SyntheticAccess(c)) == SyntheticAccess(c)
  {
    MarkAllSyntheticTwice(c.fields);
    MarkAllSyntheticTwice(c.methods);
    SyntheticBits(c.access);
  }

  lemma MarkAllSyntheticTwice(ms: seq<Member>)
    ensures MapMembers(MapMembers(ms, MarkSynthetic), MarkSynthetic) == MapMembers(ms, MarkSynthetic)
  {
    var once := MapMembers(ms, MarkSynthetic);
    forall i | 0 <= i < |once|
      ensures MarkSynthetic(once[i]) == once[i]
    {
      MarkSyntheticTwice(ms[i]);
    }
  }

  lemma BridgeIdempotent(c: ClassNode)
    ensures BridgeAccess(BridgeAccess(c)) == BridgeAccess(c)
  {
    var b := BridgeAccess(c);
    forall i | 0 <= i < |b.methods|
      ensures MarkBridge(b.methods[i]) == b.methods[i]
    {
      MarkBridgeTwice(c.methods[i]);
    }
    assert MapMembers(b.methods, MarkBridge) == b.methods;
  }

  /** `syntheticAccess` and `bridgeAccess` commute: the synthetic bit never changes bridge eligibility. */
  lemma FlagPassesCommute(c: ClassNode)
    ensures BridgeAccess(SyntheticAccess(c)) == SyntheticAccess(BridgeAccess(c))
  {
    var l := BridgeAccess(SyntheticAccess(c)).methods;
    var r := SyntheticAccess(BridgeAccess(c)).methods;
    forall i | 0 <= i < |c.methods|
      ensures l[i] == r[i]
    {
      MarkersCommute(c.methods[i]);
    }
    assert l == r;
  }

  /** Blanking touches no access flag, so it commutes with both flag passes. */
  lemma BlankingCommutes(c: ClassNode)
    ensures SyntheticAccess(ChangeSignature(c)) == ChangeSignature(SyntheticAccess(c))
    ensures BridgeAccess(ChangeSignature(c)) == ChangeSignature(BridgeAccess(c))
  {
    forall i | 0 <= i < |c.fields|
      ensures MarkSynthetic(BlankSignature(c.fields[i])) == BlankSignature(MarkSynthetic(c.fields[i]))
    {
      BlankingCommutesWithMarkers(c.fields[i]);
    }
    forall i | 0 <= i < |c.methods|
      ensures MarkSynthetic(BlankSignature(c.methods[i])) == BlankSignature(MarkSynthetic(c.methods[i]))
      ensures MarkBridge(BlankSignature(c.methods[i])) == BlankSignature(MarkBridge(c.methods[i]))
    {
      BlankingCommutesWithMarkers(c.methods[i]);
    }
    assert SyntheticAccess(ChangeSignature(c)).fields == ChangeSignature(SyntheticAccess(c)).fields;
    assert SyntheticAccess(ChangeSignature(c)).methods == ChangeSignature(SyntheticAccess(c)).methods;
    assert BridgeAccess(ChangeSignature(c)).methods == ChangeSignature(BridgeAccess(c)).methods;
  }

  /**
   * Blanking forgets what it overwrites: two classes that differ only in
   * their signatures and source attributes are identical once blanked, and
   * blanking twice is blanking once.
   */
  lemma BlankingForgetsMetadata(c1: ClassNode, c2: ClassNode)
    requires c1.(signature := None, sourceFile := None, sourceDebug := None,
                 fields := MapMembers(c1.fields, BlankSignature), methods := MapMembers(c1.methods, BlankSignature))
          == c2.(signature := None, sourceFile := None, sourceDebug := None,
                 fields := MapMembers(c2.fields, BlankSignature), methods := MapMembers(c2.methods, BlankSignature))
    ensures ChangeSignature(c1) == ChangeSignature(c2)
    ensures ChangeSignature(ChangeSignature(c1)) == ChangeSignature(c1)
  {
    var b := ChangeSignature(c1);
    assert MapMembers(b.fields, BlankSignature) == b.fields;
    assert MapMembers(b.methods, BlankSignature) == b.methods;
  }

  /**
   * What `run` leaves of a class: blanked metadata, the class and every member
   * synthetic, every eligible method a bridge, no bit ever cleared, and the
   * same members with the same names and descriptors.
   */
  lemma TransformOutcome(c: ClassNode)
    ensures var r := Transform(c);
      && r.name == c.name && r.superName == c.superName && r.interfaces == c.interfaces
      && r.signature == Some(MassiveString()) && r.sourceFile == Some(MassiveString())
      && r.sourceDebug == Some(MassiveString())
      && r.access & ACC_SYNTHETIC == ACC_SYNTHETIC && KeepsBits(c.access, r.access)
      && SameShape(c.fields, r.fields) && SameShape(c.methods, r.methods)
      && (forall i :: 0 <= i < |r.fields| ==>
            && r.fields[i].signature == Some(MassiveString())
            && r.fields[i].access & ACC_SYNTHETIC == ACC_SYNTHETIC
            && KeepsBits(c.fields[i].access, r.fields[i].access))
      && (forall i :: 0 <= i < |r.methods| ==>
            && r.methods[i].signature == Some(MassiveString())
            && r.methods[i].access & ACC_SYNTHETIC == ACC_SYNTHETIC
            && KeepsBits(c.methods[i].access, r.methods[i].access)
            && (BridgeEligible(c.methods[i]) ==> r.methods[i].access & ACC_BRIDGE == ACC_BRIDGE)
            && (!BridgeEligible(c.methods[i]) ==>
                  r.methods[i].access & ACC_BRIDGE == c.methods[i].access & ACC_BRIDGE))
  {
    TransformedFields(c);
    TransformedMethods(c);
    SyntheticBits(c.access);
  }

  lemma TransformedFields(c: ClassNode)
    ensures var r := Transform(c).fields;
      && |r| == |c.fields|
      && forall i :: 0 <= i < |r| ==>
           && r[i] == MarkSynthetic(BlankSignature(c.fields[i]))
           && r[i].access & ACC_SYNTHETIC == ACC_SYNTHETIC
           && KeepsBits(c.fields[i].access, r[i].access)
  {
    var r := Transform(c).fields;
    forall i | 0 <= i < |r|
      ensures KeepsBits(c.fields[i].access, r[i].access)
      ensures r[i].access & ACC_SYNTHETIC == ACC_SYNTHETIC
    {
      assert r[i].access == c.fields[i].access | ACC_SYNTHETIC;
      SyntheticBits(c.fields[i].access);
    }
  }

  lemma TransformedMethods(c: ClassNode)
    ensures var r := Transform(c).methods;
      && |r| == |c.methods|
      && forall i :: 0 <= i < |r| ==>
           && r[i] == MarkBridge(MarkSynthetic(BlankSignature(c.methods[i])))
           && r[i].access & ACC_SYNTHETIC == ACC_SYNTHETIC
           && KeepsBits(c.methods[i].access, r[i].access)
           && (BridgeEligible(c.methods[i]) ==> r[i].access & ACC_BRIDGE == ACC_BRIDGE)
           && (!BridgeEligible(c.methods[i]) ==> r[i].access & ACC_BRIDGE == c.methods[i].access & ACC_BRIDGE)
  {
    var r := Transform(c).methods;
    forall i | 0 <= i < |r|
      ensures r[i].access & ACC_SYNTHETIC == ACC_SYNTHETIC
      ensures KeepsBits(c.methods[i].access, r[i].access)
      ensures BridgeEligible(c.methods[i]) ==> r[i].access & ACC_BRIDGE == ACC_BRIDGE
      ensures !BridgeEligible(c.methods[i]) ==> r[i].access & ACC_BRIDGE == c.methods[i].access & ACC_BRIDGE
    {
      assert r[i] == MarkBridge(MarkSynthetic(BlankSignature(c.methods[i])));
      MethodOutcome(c.methods[i]);
    }
  }

  /** Running the passes a second time changes nothing. */
  lemma TransformIdempotent(c: ClassNode)
    ensures Transform(Transform(c)) == Transform(c)
  {
    var x := ChangeSignature(c);
    var t := Transform(c);
    assert ChangeSignature(t) == t by {
      BlankingCommutes(SyntheticAccess(x));
      BlankingCommutes(x);
      BlankingForgetsMetadata(c, c);
    }
    assert SyntheticAccess(t) == BridgeAccess(SyntheticAccess(x)) by {
      FlagPassesCommute(SyntheticAccess(x));
      SyntheticIdempotent(x);
    }
    BridgeIdempotent(SyntheticAccess(x));
  }

  /**
   * The passes leave the hierarchy the resolver reads untouched: after `run`
   * transforms the input classes, every common-super-class query has the
   * answer (or the failure) it had before.
   */
  lemma TransformPreservesResolution(reg: Registry, a: string, b: string)
    requires Acyclic(reg)
    ensures Acyclic(Registry(TransformAll(reg.classes), reg.libraries))
    ensures CommonSuperClass(Registry(TransformAll(reg.classes), reg.libraries), a, b)
         == CommonSuperClass(reg, a, b)
  {
    var t := Registry(TransformAll(reg.classes), reg.libraries);
    forall n | n in Names(reg)
      ensures SuperOf(reg, n) == SuperOf(t, n)
      ensures IsInterface(Lookup(reg, n).value.access) <==> IsInterface(Lookup(t, n).value.access)
    {
      if n in reg.classes {
        var c := reg.classes[n];
        assert IsInterface(Transform(c).access) <==> IsInterface(c.access) by {
          assert Transform(c).access == c.access | ACC_SYNTHETIC;
        }
      }
    }
    assert SameHierarchy(reg, t);
    SameHierarchySameAnswer(reg, t, a, b);
  }
}
