# scuti-lite core, modelled in Dafny

This project models the core of `Scuti.java`, the scuti-lite Java bytecode
obfuscator. It reads one input jar and any number of library jars, then
rewrites every input class in three passes:

- `changeSignature` overwrites signatures and source attributes;
- `syntheticAccess` marks the class and its members synthetic;
- `bridgeAccess` marks eligible methods as bridges.

It then writes a new jar. The model covers four parts:

- **Class registry** (`registry.dfy`). Two maps: the input `classes` and the
  reference `libraries`. `assureLoaded` looks a name up in that order and
  returns null when neither map has it. The model returns `None` instead.
- **Common-super-class resolver** (`resolver.dfy`). This is the
  `getCommonSuperClass` callback that the local `ClassWriter` subclass gives
  ASM for stack-map frame computation (section 4.10.1 of the Java Virtual
  Machine Specification, Java SE 8 edition). The model includes
  `deriveCommonSuperName`, its do-while walk and `isAssignableFrom`.
  - Every failure in the Java code is a `NullPointerException` on a null
    looked-up class or a null super name. `ResolveError` records which one it
    was.
  - The model requires an acyclic registry: a rank function that drops along
    every super link. This is a global simplification. In the Java code, a cycle
    matters only when a query reaches it. The do-while walk then loops forever
    if the cycle holds neither the root nor the other argument. The recursion
    on both super names overflows the stack instead when it meets cycles on
    both sides and, at every level, the pair is settled by the interface
    short-circuit rather than by the walk; that
    `StackOverflowError` is not an `Exception`, so it aborts the run. A cyclic
    registry runs to completion in the Java code when no frame query reaches a
    cycle, or when every walk that enters one meets the other argument; the
    model excludes it too.
- **Passes** (`transforms.dfy`). The three passes above, and the
  32767-space filler that `getMassiveString` builds.
- **Routing and emission** (`packager.dfy`). This covers `parseInput`,
  `parseLibraries`, `dumpClasses` and `run`.
  - Jars are sequences of entries.
  - ASM's reader and writers are function values bundled in a `Codec`.
  - The `HashMap` iteration order of `dumpClasses` is a nondeterministic choice.

`scenarios.dfy` works concrete hierarchies and one concrete archive through
the model.

The model follows the code in several places where a reader might expect
something else:

- `getCommonSuperClass` computes both derivations before it inspects either.
  So a query can fail even though the first derivation already had the answer
  (`Scenarios.SecondDerivationFails`).
- When the recursion reaches a class without a super name, only the test of
  the first argument against the root survives the null.
- In `dumpClasses`, frames are computed inside `accept`. The jar entry is
  opened only afterwards, and `toByteArray()` is evaluated after that. A
  resolver or JSR/RET failure therefore writes nothing for the class. A
  failure inside `toByteArray()` leaves an empty entry under the class's name.
- The COMPUTE_MAXS retry only calls `accept`, and its bytes are never asked
  for. A class whose COMPUTE_FRAMES encoding fails never gets its retry
  written.
- If the retry itself throws, the exception leaves the loop. `close()` is
  then never reached, and the run ends as `Aborted`.

## Model

| member | source | states |
|---|---|---|
| Registry.Lookup | src/main/java/tk/scuti/core/lite/Scuti.java:323-336 | A lookup succeeds exactly for the names of the two maps, and never with an error. An input class shadows a library class of the same name; a name only a library holds gives the library class. |
| Registry.LookupIsOverride | src/main/java/tk/scuti/core/lite/Scuti.java:323-336 | A lookup gives the input class when there is one, else the library class, else `None` and never an error. This is lookup in the libraries overridden by the input classes, and it succeeds exactly for the names of the two maps. |
| Resolver.AssignableIsHierarchyFree | src/main/java/tk/scuti/core/lite/Scuti.java:316-319 | `isAssignableFrom` holds exactly when the first name stands above the second in every registry. So it never consults the hierarchy: it is sound, but it misses every proper ancestor other than the root. |
| Resolver.Walk | src/main/java/tk/scuti/core/lite/Scuti.java:307-312 | When the do-while walk succeeds, its answer is the second argument or `java/lang/Object`. |
| Resolver.WalkFindsFirstStop | src/main/java/tk/scuti/core/lite/Scuti.java:307-312 | The walk returns `r` if and only if `r` is the first name strictly above `x` on its super chain that is the root or `y`. |
| Resolver.DeriveCommonSuperName | src/main/java/tk/scuti/core/lite/Scuti.java:296-314 | On success, the result is one of its two arguments or `java/lang/Object`. |
| Resolver.DeriveCommonSuperNameCases | src/main/java/tk/scuti/core/lite/Scuti.java:296-319 | The outcomes, in the order `Scuti.java` tests them. First, the first argument if it is assignable to the second. Then the second if it is assignable to the first. Then, if the first class is not registered, a failure naming it. Then the root if the first class is an interface, whatever the second is. Then, if the second class is not registered, a failure naming it. Then the root if the second class is an interface. Otherwise, the result of the walk, which is the first root-or-second name above the first class. |
| Resolver.DeriveSubsumesBoth | src/main/java/tk/scuti/core/lite/Scuti.java:296-314 | A successful derivation stands above both arguments: it is the root, the argument itself, or an ancestor. |
| Resolver.CommonSuperClass | src/main/java/tk/scuti/core/lite/Scuti.java:275-294 | If either argument is `java/lang/Object`, the answer is `java/lang/Object`. The answer for `(a, a)` is `a`, even for a name no map holds. |
| Resolver.CommonSuperClassIsCommonAncestor | src/main/java/tk/scuti/core/lite/Scuti.java:275-294 | Every answer is a self-inclusive common ancestor of both arguments. |
| Resolver.CommonSuperClassTotal | src/main/java/tk/scuti/core/lite/Scuti.java:275-314 | On an acyclic registry where every non-root class has a resolvable super name, every query on resolvable names succeeds. |
| Resolver.CommonSuperClassIsLeast | src/main/java/tk/scuti/core/lite/Scuti.java:275-314 | On a class hierarchy (acyclic, closed, rooted, no interfaces), the answer is the nearest common ancestor: every common ancestor stands above it. |
| Resolver.InterfaceMeetsAtObject | src/main/java/tk/scuti/core/lite/Scuti.java:304-306 | Two distinct classes, each with a super name and one of them an interface whose super is the root, always meet at `java/lang/Object`. |
| Resolver.SameHierarchySameAnswer | src/main/java/tk/scuti/core/lite/Scuti.java:275-319 | The resolver reads only the registered names, their super names and their interface bits. Two registries that agree on these give the same answer or the same failure to every query. |
| Transforms.GetMassiveString | src/main/java/tk/scuti/core/lite/Scuti.java:249-255 | The filler is exactly `Short.MAX_VALUE` (32767) characters long, and every one of them is a space. |
| Transforms.ChangeSignature | src/main/java/tk/scuti/core/lite/Scuti.java:161-169 | `sourceFile`, `sourceDebug`, the class signature and every field and method signature become the filler. Member counts are unchanged and nothing else changes. |
| Transforms.SyntheticAccess | src/main/java/tk/scuti/core/lite/Scuti.java:153-159 | The class and every field and method get `ACC_SYNTHETIC`, with every other bit kept. Nothing else changes. |
| Transforms.BridgeAccess | src/main/java/tk/scuti/core/lite/Scuti.java:146-151 | Exactly the methods with no `<` in the name that are not abstract get `ACC_BRIDGE`, with every other bit kept. All other methods, the fields and the class are unchanged. |
| Transforms.FlagPassesIdempotent | src/main/java/tk/scuti/core/lite/Scuti.java:146-159 | Applying either flag pass twice is the same as applying it once. |
| Transforms.FlagPassesCommute | src/main/java/tk/scuti/core/lite/Scuti.java:146-159 | The two flag passes commute, because the synthetic bit never changes bridge eligibility. |
| Transforms.BlankingCommutes | src/main/java/tk/scuti/core/lite/Scuti.java:146-169 | Blanking commutes with both flag passes. |
| Transforms.BlankingForgetsMetadata | src/main/java/tk/scuti/core/lite/Scuti.java:161-169 | Classes that differ only in the attributes blanking overwrites look the same after blanking, and blanking twice is the same as blanking once. |
| Transforms.TransformOutcome | src/main/java/tk/scuti/core/lite/Scuti.java:135-140 | `Transform`, the three passes in `run`'s order. Afterwards: name, super name and interfaces are kept, and the metadata is blanked. The class and every member are synthetic and no bit is cleared. Eligible methods are bridges, and ineligible ones keep their bridge bit as it was. Member names and descriptors are kept. |
| Transforms.TransformIdempotent | src/main/java/tk/scuti/core/lite/Scuti.java:135-140 | Running the three passes on an already transformed class changes nothing. |
| Transforms.TransformPreservesResolution | src/main/java/tk/scuti/core/lite/Scuti.java:135-142 | Transforming the input classes keeps the registry acyclic. It also leaves every common-super-class answer, or failure, as it was before the passes. |
| Packager.LoadClassesKeys | src/main/java/tk/scuti/core/lite/Scuti.java:171-181 | `LoadClasses`, the class branch of `parseInput`. After loading, the map holds its old names plus exactly the names that some `.class` entry decodes to. Undecodable entries and other entries add nothing. |
| Packager.LoadClassesLastWins | src/main/java/tk/scuti/core/lite/Scuti.java:175-181 | A name holds the class decoded from the last entry that decodes to that name, because `put` overwrites. |
| Packager.LoadClassesUntouched | src/main/java/tk/scuti/core/lite/Scuti.java:199-206 | A name that no entry decodes to keeps the class it had before. Library loading relies on this across archives. |
| Packager.LoadClassesKeyed | src/main/java/tk/scuti/core/lite/Scuti.java:181 | Every loaded class is stored under its own decoded name. |
| Packager.PassthroughSpec | src/main/java/tk/scuti/core/lite/Scuti.java:173-190 | `Passthrough`, the other branch of `parseInput`. The copied entries are exactly the first non-directory, non-`.class` entry of each name. They are copied byte for byte and in input order. A later entry with a repeated name is refused by the zip stream, and that exception is caught. |
| Packager.PassthroughProperties | src/main/java/tk/scuti/core/lite/Scuti.java:171-193 | Every passthrough name is written exactly once. Each written entry is an input entry unchanged. No written name ends in `.class`. |
| Packager.ParseLibrariesLoadsOpened | src/main/java/tk/scuti/core/lite/Scuti.java:195-214 | `ParseLibraries`. The library map is one `put` per `.class` entry of the opened archives, taken in order. An unreadable archive ends the loop. |
| Packager.ParseLibrariesKeys | src/main/java/tk/scuti/core/lite/Scuti.java:195-214 | Library archives contribute only classes: a library name is a class that some opened entry decodes to. |
| Packager.ParseLibrariesStops | src/main/java/tk/scuti/core/lite/Scuti.java:67-74 | Nothing after the first library archive that cannot be opened is read. The constructor catches the `IOException` and keeps what was loaded. |
| Packager.ParseLibrariesKeyed | src/main/java/tk/scuti/core/lite/Scuti.java:206 | Every library class is stored under its own decoded name. |
| Packager.ResolveAll | src/main/java/tk/scuti/core/lite/Scuti.java:218-220 | The frame writer gets, in order, the resolver's answer to each of its queries. Resolution fails exactly when some query fails. |
| Packager.FramesEncode | src/main/java/tk/scuti/core/lite/Scuti.java:218-224 | The `try` block for one class, exactly in each case. A resolver failure on any query is a `NullPointerException` with a null message, raised before the entry is opened. Once every query is answered, the outcome depends on `accept` and `toByteArray()`, each given the resolver's answers. If `accept` throws, its own exception (a JSR/RET refusal, say) is the one the catch tests, and no entry is opened. If `accept` succeeds and `toByteArray()` succeeds, the entry holds exactly the writer's bytes. If `accept` succeeds and `toByteArray()` throws, the entry is open and that exception is reported. |
| Packager.EmitClass | src/main/java/tk/scuti/core/lite/Scuti.java:216-245 | A class entry is opened exactly when the COMPUTE_FRAMES `accept` succeeds. It carries the writer's bytes, or no bytes when `toByteArray()` throws. The loop halts exactly when a retryable exception (non-null message, and `ClassNotFoundException` or one mentioning JSR/RET) is followed by a failing COMPUTE_MAXS `accept`, and the escaping exception is the retry's. A resolver failure writes nothing and never halts. |
| Packager.RetryWritesNothing | src/main/java/tk/scuti/core/lite/Scuti.java:227-239 | The COMPUTE_MAXS retry never changes what is written for a class. It only decides whether the run halts. |
| Packager.WrittenForSpec | src/main/java/tk/scuti/core/lite/Scuti.java:217-224 | For an iteration order without repeats, the class entries written are one per visited class that opened an entry. Each is named `name + ".class"`, and no name appears twice. |
| Packager.DumpClasses | src/main/java/tk/scuti/core/lite/Scuti.java:216-247 | For any table of per-class outcomes and any iteration order: class entries follow the entries already written. Each is a class's own emission, under `name + ".class"`, and names are distinct. The loop halts if and only if some class halts, and a halt ends it: every class entry but the last comes from a class that did not halt, so nothing is written after the halting class. Without a halt, every class that opened an entry appears. |
| Packager.DumpRegistry | src/main/java/tk/scuti/core/lite/Scuti.java:135-142 | The registry `dumpClasses` resolves against holds the transformed input classes under the same names, plus the untouched libraries. Every class sits under its own name, so the entry name `name + ".class"` built by `dumpClasses` equals the key-based one. The registry is acyclic whenever the parsed one is. |
| Packager.TransformKeepsAnswers | src/main/java/tk/scuti/core/lite/Scuti.java:135-142 | Every sequence of frame-writer queries gets the same answers after the passes as before them. |
| Packager.Run | src/main/java/tk/scuti/core/lite/Scuti.java:129-144 | An unreadable input aborts with nothing written. Otherwise the passthrough entries come first, then the class entries, and no name is repeated. The run aborts if and only if some class halts. An aborted run writes nothing after the halting class: every class entry but the last comes from a class that did not halt. A completed run contains every class that opened an entry. |
| Packager.OutputNamesDistinct | src/main/java/tk/scuti/core/lite/Scuti.java:183 | A passthrough name never ends in `.class`, and a class entry name always does, so the two kinds of entry never collide. |
| Scenarios.SiblingsMeetAtParent | src/main/java/tk/scuti/core/lite/Scuti.java:275-314 | With `A -> B -> Object` and `C -> B`, the query `(A, C)` gives `B`. |
| Scenarios.ParentAnswersDirectly | src/main/java/tk/scuti/core/lite/Scuti.java:281-289 | A class and its parent give the parent, in either order. |
| Scenarios.UnrelatedMeetAtRoot | src/main/java/tk/scuti/core/lite/Scuti.java:275-314 | Classes on unrelated chains give `java/lang/Object`. |
| Scenarios.InterfaceGivesRoot | src/main/java/tk/scuti/core/lite/Scuti.java:304-306 | An interface on either side gives `java/lang/Object`. |
| Scenarios.SecondDerivationFails | src/main/java/tk/scuti/core/lite/Scuti.java:281-284 | With `A -> B -> X` and `X` unregistered, the first derivation already gives `B`, but the second walks into `X`, so the query fails. |
| Scenarios.ToyPassthrough | src/main/java/tk/scuti/core/lite/Scuti.java:171-193 | Of two manifests with the same name, only the first is copied. Directories and class entries are not copied. |
| Scenarios.ToyInputClasses | src/main/java/tk/scuti/core/lite/Scuti.java:175-181 | The class entry that decodes is loaded under its name, and the broken one is skipped. |
| Scenarios.ToyClassEmitted | src/main/java/tk/scuti/core/lite/Scuti.java:146-159 | After the passes, a public class is `0x1021`, its private field is synthetic, the constructor is synthetic but not a bridge, `run` is a synthetic bridge, and the writer's bytes are emitted. |

## Left out

- The command line (`main`, `parseArgs`, the file existence checks) and `ScutiUI.java`. These are argument parsing and a Swing dialog; the dialog calls a `Scuti.start` that `Scuti.java` does not define.
- Jar and stream I/O. Archives are sequences of `(name, isDirectory, bytes)`. An archive either opens or does not. `toByteArray`, `closeEntry`, and write failures other than the duplicate-name refusal are not modelled.
- ASM internals: class decoding and encoding, and frame computation. They are function values in `Codec`. The codec's queries are answered before its own verdict is taken, so the model does not fix how a JSR/RET refusal is ordered against the resolver queries within one `accept`.
- Method code, annotations and every class attribute that no pass touches. `ClassNode` keeps only what the passes and the resolver read or write.
- Diagnostics: `printStackTrace`, `System.err` messages and `PACKAGE_VERSION`.
- Cyclic super chains. `Acyclic` is a precondition of the resolver and of `run`. It also excludes cyclic registries on which the Java code completes, because no frame query reaches a cycle, or every walk that enters one meets the other argument. It excludes those on which it hangs in the do-while walk, and those on which the recursion on both super names overflows the stack and aborts the run. Overflow needs the interface short-circuit to settle the pair at every level; a level that reaches the do-while walk hangs there instead.
- Java's "helpful" `NullPointerException` messages. A resolver failure is given a null message. A non-null message would not change the outcome, because such an exception is neither a `ClassNotFoundException` nor mentions JSR/RET.
