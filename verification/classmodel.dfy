/**
 * The in-memory class model the obfuscator works on: the parts of ASM's
 * `ClassNode`, `FieldNode` and `MethodNode` that the passes read or write.
 */
module ClassModel {
  import opened Wrappers

  /** ASM stores access flags in a Java `int`, pseudo-flags above bit 15 included. */
  type Flags = bv32

  const ACC_BRIDGE: Flags := 0x0040
  const ACC_INTERFACE: Flags := 0x0200
  const ACC_ABSTRACT: Flags := 0x0400
  const ACC_SYNTHETIC: Flags := 0x1000

  /** The root of every class hierarchy, as an internal name. */
  const OBJECT: string := "java/lang/Object"

  /** `Modifier.isInterface(access)`. */
  predicate IsInterface(access: Flags)
  {
    access & ACC_INTERFACE != 0
  }

  /** `Modifier.isAbstract(access)`. */
  predicate IsAbstract(access: Flags)
  {
    access & ACC_ABSTRACT != 0
  }

  /** Every bit set in `before` is still set in `after`. */
  predicate KeepsBits(before: Flags, after: Flags)
  {
    after & before == before
  }

  /**
   * A field or a method: the attributes the passes touch. Instructions,
   * annotations and other attributes are carried by the codec untouched.
   */
  datatype Member = Member(name: string, desc: string, access: Flags, signature: Option<string>)

  /** A decoded class. `superName` is `None` only where the class file has no super class. */
  datatype ClassNode = ClassNode(
    name: string,
    access: Flags,
    superName: Option<string>,
    interfaces: seq<string>,
    signature: Option<string>,
    sourceFile: Option<string>,
    sourceDebug: Option<string>,
    fields: seq<Member>,
    methods: seq<Member>)

  /** Two member lists that agree on everything but access flags and signatures. */
  predicate SameShape(a: seq<Member>, b: seq<Member>)
  {
    |a| == |b| && forall i :: 0 <= i < |a| ==> a[i].name == b[i].name && a[i].desc == b[i].desc
  }

  // Bit facts about the two flags the passes set. Each is stated for the
  // named constants: the solver settles these at once, but not their
  // generalisation to arbitrary flags.

  lemma SyntheticBits(access: Flags)
    ensures KeepsBits(access, access | ACC_SYNTHETIC)
    ensures (access | ACC_SYNTHETIC) & ACC_SYNTHETIC == ACC_SYNTHETIC
    ensures (access | ACC_SYNTHETIC) | ACC_SYNTHETIC == access | ACC_SYNTHETIC
    ensures (access | ACC_SYNTHETIC) & ACC_BRIDGE == access & ACC_BRIDGE
    ensures (access | ACC_SYNTHETIC) & ACC_ABSTRACT == access & ACC_ABSTRACT
    ensures (access | ACC_SYNTHETIC) & ACC_INTERFACE == access & ACC_INTERFACE
  {
  }

  lemma BridgeBits(access: Flags)
    ensures KeepsBits(access, access | ACC_BRIDGE)
    ensures (access | ACC_BRIDGE) & ACC_BRIDGE == ACC_BRIDGE
    ensures (access | ACC_BRIDGE) | ACC_BRIDGE == access | ACC_BRIDGE
    ensures (access | ACC_BRIDGE) & ACC_ABSTRACT == access & ACC_ABSTRACT
  {
  }

  lemma FlagOrderIrrelevant(access: Flags)
    ensures (access | ACC_SYNTHETIC) | ACC_BRIDGE == (access | ACC_BRIDGE) | ACC_SYNTHETIC
  {
  }

  lemma BothBits(access: Flags)
    ensures KeepsBits(access, (access | ACC_SYNTHETIC) | ACC_BRIDGE)
    ensures ((access | ACC_SYNTHETIC) | ACC_BRIDGE) & ACC_SYNTHETIC == ACC_SYNTHETIC
    ensures ((access | ACC_SYNTHETIC) | ACC_BRIDGE) & ACC_BRIDGE == ACC_BRIDGE
  {
  }
}
