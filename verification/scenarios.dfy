/**
 * Concrete hierarchies and archives worked through the model: the answers
 * the resolver gives on small registries, including the failure the
 * evaluation order causes, and one input archive routed end to end.
 */
module Scenarios {
  import opened Wrappers
  import opened Strings
  import opened ClassModel
  import opened Registry
  import opened Resolver
  import opened Transforms
  import opened Packager

  /** A class with no members, interfaces or attributes. */
  function Plain(name: string, superName: Option<string>, access: Flags): ClassNode
  {
    ClassNode(name, access, superName, [], None, None, None, [], [])
  }

  /**
   * Input classes `A -> B -> Object`, `C -> B`, `D -> Object` and an
   * interface `I`; `java/lang/Object` comes from a library.
   */
  function Sample(): (reg: Registry)
    ensures Acyclic(reg)
  {
    var reg := Registry(
      map["A" := Plain("A", Some("B"), 0), "B" := Plain("B", Some(OBJECT), 0),
          "C" := Plain("C", Some("B"), 0), "D" := Plain("D", Some(OBJECT), 0),
          "I" := Plain("I", Some(OBJECT), ACC_INTERFACE | ACC_ABSTRACT)],
      map[OBJECT := Plain(OBJECT, None, 0)]);
    var rank: string -> nat := n => if n == "A" || n == "C" then 2 else if n == OBJECT then 0 else 1;
    assert RankedBy(reg, rank);
    reg
  }

  /** Two siblings meet at their parent: neither walk reaches the other, so the search climbs one level. */
  lemma SiblingsMeetAtParent()
    ensures CommonSuperClass(Sample(), "A", "C") == Success("B")
  {
    var reg := Sample();
    assert Walk(reg, "B", "C") == Success(OBJECT);
    assert Walk(reg, "A", "C") == Success(OBJECT);
    assert Walk(reg, "B", "A") == Success(OBJECT);
    assert Walk(reg, "C", "A") == Success(OBJECT);
    assert DeriveCommonSuperName(reg, "A", "C") == Success(OBJECT);
    assert DeriveCommonSuperName(reg, "C", "A") == Success(OBJECT);
  }

  /** A class and its own super: the first walk stops at the parent and answers at once. */
  lemma ParentAnswersDirectly()
    ensures CommonSuperClass(Sample(), "A", "B") == Success("B")
    ensures CommonSuperClass(Sample(), "B", "A") == Success("B")
  {
    var reg := Sample();
    assert Walk(reg, "A", "B") == Success("B");
    assert Walk(reg, "B", "A") == Success(OBJECT);
    assert DeriveCommonSuperName(reg, "A", "B") == Success("B");
    assert DeriveCommonSuperName(reg, "B", "A") == Success(OBJECT);
  }

  /** Classes on unrelated chains meet at the root. */
  lemma UnrelatedMeetAtRoot()
    ensures CommonSuperClass(Sample(), "A", "D") == Success(OBJECT)
  {
    var reg := Sample();
    assert Walk(reg, "B", "D") == Success(OBJECT);
    assert Walk(reg, "A", "D") == Success(OBJECT);
    assert Walk(reg, "D", "A") == Success(OBJECT);
    assert DeriveCommonSuperName(reg, "A", "D") == Success(OBJECT);
    assert DeriveCommonSuperName(reg, "D", "A") == Success(OBJECT);
  }

  /** An interface on either side gives the root, whatever the other class is. */
  lemma InterfaceGivesRoot()
    ensures CommonSuperClass(Sample(), "A", "I") == Success(OBJECT)
    ensures CommonSuperClass(Sample(), "I", "C") == Success(OBJECT)
  {
    var reg := Sample();
    assert IsInterface(ACC_INTERFACE | ACC_ABSTRACT);
    assert DeriveCommonSuperName(reg, "A", "I") == Success(OBJECT);
    assert DeriveCommonSuperName(reg, "I", "A") == Success(OBJECT);
    assert DeriveCommonSuperName(reg, "I", "C") == Success(OBJECT);
    assert DeriveCommonSuperName(reg, "C", "I") == Success(OBJECT);
  }

  /** `A -> B -> X` where `X` is on no classpath. */
  function Partial(): (reg: Registry)
    ensures Acyclic(reg)
  {
    var reg := Registry(map["A" := Plain("A", Some("B"), 0), "B" := Plain("B", Some("X"), 0)], map[]);
    var rank: string -> nat := n => if n == "A" then 2 else if n == "B" then 1 else 0;
    assert RankedBy(reg, rank);
    reg
  }

  /**
   * Both derivations run before either is inspected: the first already has
   * the right answer `B`, but the second walks from `B` into the missing `X`
   * and the whole query fails.
   */
  lemma SecondDerivationFails()
    ensures DeriveCommonSuperName(Partial(), "A", "B") == Success("B")
    ensures CommonSuperClass(Partial(), "A", "B") == Failure(MissingClass("X"))
  {
    var reg := Partial();
    assert Walk(reg, "A", "B") == Success("B");
    assert Walk(reg, "X", "A") == Failure(MissingClass("X"));
    assert Walk(reg, "B", "A") == Failure(MissingClass("X"));
    assert DeriveCommonSuperName(reg, "B", "A") == Failure(MissingClass("X"));
  }

  // ---------------------------------------------------------------------------
  // One archive through `run`

  function Foo(): ClassNode
  {
    ClassNode("Foo", 0x0021, Some(OBJECT), [], None, Some("Foo.java"), None,
              [Member("count", "I", 0x0002, None)],
              [Member("<init>", "()V", 0x0001, None), Member("run", "()V", 0x0001, None)])
  }

  /** A reader that understands one byte string; a frame writer that asks nothing and always succeeds. */
  function ToyCodec(): Codec
  {
    Codec(
      (b: Bytes) => if b == [0xCA] then Some(Foo()) else None,
      (c: ClassNode) => [],
      (c: ClassNode, answers: seq<string>) => None,
      (c: ClassNode, answers: seq<string>) => Success([0xCA, 0xFE]),
      (c: ClassNode) => None)
  }

  /**
   * `Foo.class`, a manifest, its directory, a second manifest and a broken
   * class entry.
   */
  function ToyEntries(): seq<Entry>
  {
    [ Entry("Foo.class", false, [0xCA]),
      Entry("META-INF/", true, []),
      Entry("META-INF/MANIFEST.MF", false, [1]),
      Entry("META-INF/MANIFEST.MF", false, [2]),
      Entry("Broken.class", false, [0]) ]
  }

  /** A name whose last character is not `s` is not a class entry name. */
  lemma NotClassName(name: string)
    requires |name| > 0 && name[|name| - 1] != 's'
    ensures !EndsWith(name, CLASS_SUFFIX)
  {
  }

  /** The first three entries: only the manifest is copied. */
  lemma ToyManifestCopied()
    ensures var es := ToyEntries();
      Passthrough([es[0], es[1], es[2]]) == [OutEntry("META-INF/MANIFEST.MF", [1])]
  {
    var es := ToyEntries();
    assert IsClassEntry(es[0]);
    NotClassName(es[2].name);
    var p1, p2, p3 := [es[0]], [es[0], es[1]], [es[0], es[1], es[2]];
    assert p1[..0] == [] && p2[..1] == p1 && p3[..2] == p2;
    PassthroughStep(p1);
    PassthroughStep(p2);
    PassthroughStep(p3);
    assert EntryNames([]) == {};
  }

  /**
   * The manifest is copied once, with the bytes of its first occurrence; the
   * directory and both class entries are not copied.
   */
  lemma ToyPassthrough()
    ensures Passthrough(ToyEntries()) == [OutEntry("META-INF/MANIFEST.MF", [1])]
  {
    var es := ToyEntries();
    var manifest := OutEntry("META-INF/MANIFEST.MF", [1]);
    ToyManifestCopied();
    assert IsClassEntry(es[4]);
    var p3, p4 := [es[0], es[1], es[2]], [es[0], es[1], es[2], es[3]];
    assert p4[..3] == p3 && es[..4] == p4;
    PassthroughStep(p4);
    assert EntryNames([manifest]) == {manifest.name};
    PassthroughStep(es);
  }

  /** The one class entry that decodes is loaded under its name; the broken one is skipped. */
  lemma ToyInputClasses()
    ensures InputClasses(Readable(ToyEntries()), ToyCodec()) == map["Foo" := Foo()]
  {
    var es := ToyEntries();
    var codec := ToyCodec();
    assert IsClassEntry(es[0]);
    NotClassName(es[1].name);
    NotClassName(es[2].name);
    NotClassName(es[3].name);
    assert codec.decode(es[4].data) == None;
    var p1, p2, p3, p4 := [es[0]], [es[0], es[1]], [es[0], es[1], es[2]], [es[0], es[1], es[2], es[3]];
    assert p1[..0] == [] && p2[..1] == p1 && p3[..2] == p2 && p4[..3] == p3 && es[..4] == p4;
    LoadClassesStep(map[], p1, codec);
    LoadClassesStep(map[], p2, codec);
    LoadClassesStep(map[], p3, codec);
    LoadClassesStep(map[], p4, codec);
    LoadClassesStep(map[], es, codec);
  }

  /**
   * After the passes, `Foo` is synthetic, its field and `run` too, `run`
   * is a bridge and the constructor is not; the writer's bytes are emitted.
   */
  lemma ToyClassEmitted()
    ensures var t := Transform(Foo());
      && t.access == 0x1021
      && t.fields[0].access == 0x1002
      && t.methods[0].access == 0x1001
      && t.methods[1].access == 0x1041
    ensures EmitClass(Sample(), ToyCodec(), Transform(Foo())) == Emission(Some([0xCA, 0xFE]), None)
  {
    var t := Transform(Foo());
    assert !BridgeEligible(MarkSynthetic(BlankSignature(Foo().methods[0])));
    assert BridgeEligible(MarkSynthetic(BlankSignature(Foo().methods[1])));
  }
}
