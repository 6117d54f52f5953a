/**
 * Archive routing and emission: `parseInput`, `parseLibraries`,
 * `dumpClasses` and `run`. Jar streams are sequences of entries; the ASM
 * reader and writer are the function values of a `Codec`.
 */
module Packager {
  import opened Wrappers
  import opened Strings
  import opened ClassModel
  import opened Registry
  import opened Resolver
  import opened Transforms

  type Bytes = seq<bv8>

  const CLASS_SUFFIX: string := ".class"

  /** One entry as `JarFile.stream()` yields it, with the bytes its input stream would give. */
  datatype Entry = Entry(name: string, isDirectory: bool, data: Bytes)

  /** A jar on disk: `Unreadable` when `new JarFile(file)` throws an `IOException`. */
  datatype Archive = Unreadable | Readable(entries: seq<Entry>)

  /** One entry written to the `JarOutputStream`. */
  datatype OutEntry = OutEntry(name: string, data: Bytes)

  datatype ExceptionKind = ClassNotFound | NullPointer | OtherException

  /** An exception escaping `classNode.accept(classWriter)`: its class and `getMessage()`. */
  datatype Thrown = Thrown(kind: ExceptionKind, message: Option<string>)

  /**
   * The ASM library, which this model does not look inside.
   * - `decode` is `ClassReader.accept` into a fresh `ClassNode` (`None` when it throws).
   * - `frameQueries` lists the `getCommonSuperClass` calls that
   *   `classNode.accept` makes on a COMPUTE_FRAMES writer for a class.
   * - `acceptFrames` is the rest of that `accept`, given the answers: the
   *   exception it throws, if any (JSR/RET code is refused here).
   * - `frameBytes` is the writer's `toByteArray()` after a successful `accept`.
   * - `acceptMaxs` is `classNode.accept` on a COMPUTE_MAXS writer, which asks
   *   no questions: the exception it throws, if any. Its bytes are never asked for.
   */
  datatype Codec = Codec(
    decode: Bytes -> Option<ClassNode>,
    frameQueries: ClassNode -> seq<(string, string)>,
    acceptFrames: (ClassNode, seq<string>) -> Option<Thrown>,
    frameBytes: (ClassNode, seq<string>) -> Result<Bytes, Thrown>,
    acceptMaxs: ClassNode -> Option<Thrown>)

  // ---------------------------------------------------------------------------
  // Routing

  /** `entry.getName().endsWith(".class")`: the entry is handed to the class reader. */
  predicate IsClassEntry(e: Entry)
  {
    EndsWith(e.name, CLASS_SUFFIX)
  }

  /** Neither a class entry nor a directory: `parseInput` copies it to the output. */
  predicate IsPassthrough(e: Entry)
  {
    !IsClassEntry(e) && !e.isDirectory
  }

  /** A class entry that the reader decodes into a class named `name`. */
  predicate DecodesTo(codec: Codec, e: Entry, name: string)
  {
    IsClassEntry(e) && codec.decode(e.data).Some? && codec.decode(e.data).value.name == name
  }

  function EntryNames(out: seq<OutEntry>): set<string>
  {
    set e | e in out :: e.name
  }

  /** No two entries share a name. */
  predicate NamesDistinct(out: seq<OutEntry>)
  {
    forall i, j :: 0 <= i < j < |out| ==> out[i].name != out[j].name
  }

  /**
   * `map.put(classNode.name, classNode)` for every class entry of `entries`,
   * in order, starting from `m`. Entries that fail to decode are skipped (the
   * exception is caught and printed).
   */
  function LoadClasses(m: map<string, ClassNode>, entries: seq<Entry>, codec: Codec): map<string, ClassNode>
    decreases |entries|
  {
    if entries == [] then m
    else
      var before := LoadClasses(m, entries[..|entries| - 1], codec);
      var e := entries[|entries| - 1];
      if IsClassEntry(e) && codec.decode(e.data).Some? then
        var c := codec.decode(e.data).value;
        before[c.name := c]
      else before
  }

  /**
   * The passthrough half of `parseInput`: each non-class, non-directory entry
   * is written to the output as it is met. `ZipOutputStream.putNextEntry`
   * rejects a name it has already written; that exception is caught too, so a
   * repeated name is dropped.
   */
  function Passthrough(entries: seq<Entry>): seq<OutEntry>
    decreases |entries|
  {
    if entries == [] then []
    else
      var before := Passthrough(entries[..|entries| - 1]);
      var e := entries[|entries| - 1];
      if IsPassthrough(e) && e.name !in EntryNames(before) then before + [OutEntry(e.name, e.data)]
      else before
  }

  /** The class half of `parseInput`: the input classes, keyed by decoded name. */
  function InputClasses(input: Archive, codec: Codec): map<string, ClassNode>
  {
    match input
    case Unreadable => map[]
    case Readable(entries) => LoadClasses(map[], entries, codec)
  }

  /**
   * `parseLibraries`: every class entry of every library archive, in order,
   * into one map. An archive that cannot be opened ends the loop (the
   * `IOException` leaves `parseLibraries` and the constructor prints it), so
   * later archives are never read.
   */
  function ParseLibraries(libs: map<string, ClassNode>, archives: seq<Archive>, codec: Codec): map<string, ClassNode>
    decreases |archives|
  {
    if archives == [] then libs
    else
      match archives[0]
      case Unreadable => libs
      case Readable(entries) => ParseLibraries(LoadClasses(libs, entries, codec), archives[1..], codec)
  }

  // ---------------------------------------------------------------------------
  // What the loaders keep

  /** Entry `i` decodes, and no later entry decodes to a class of the same name. */
  predicate IsLastDecoding(codec: Codec, entries: seq<Entry>, i: int)
  {
    && 0 <= i < |entries|
    && IsClassEntry(entries[i])
    && codec.decode(entries[i].data).Some?
    && forall j :: i < j < |entries| ==> !DecodesTo(codec, entries[j], codec.decode(entries[i].data).value.name)
  }

  /** One step of `LoadClasses`: the map before the last entry, updated by it. */
  lemma LoadClassesStep(m: map<string, ClassNode>, entries: seq<Entry>, codec: Codec)
    requires entries != []
    ensures var before := LoadClasses(m, entries[..|entries| - 1], codec);
      var e := entries[|entries| - 1];
      LoadClasses(m, entries, codec)
        == if IsClassEntry(e) && codec.decode(e.data).Some?
           then before[codec.decode(e.data).value.name := codec.decode(e.data).value]
           else before
  {
  }

  /** Loading keeps every class already in the map and adds exactly the names some entry decodes to. */
  lemma {:induction false} LoadClassesKeys(m: map<string, ClassNode>, entries: seq<Entry>, codec: Codec)
    ensures forall k :: k in LoadClasses(m, entries, codec) <==>
      k in m || exists i :: 0 <= i < |entries| && DecodesTo(codec, entries[i], k)
    decreases |entries|
  {
    if entries != [] {
      var n := |entries|;
      var pre := entries[..n - 1];
      var e := entries[n - 1];
      LoadClassesKeys(m, pre, codec);
      LoadClassesStep(m, entries, codec);
      var before := LoadClasses(m, pre, codec);
      var r := LoadClasses(m, entries, codec);
      assert before.Keys <= r.Keys;
      forall k
        ensures k in r <==> k in m || exists i :: 0 <= i < n && DecodesTo(codec, entries[i], k)
      {
        if k in before {
          if k !in m {
            var i :| 0 <= i < n - 1 && DecodesTo(codec, pre[i], k);
            assert DecodesTo(codec, entries[i], k);
          }
        } else if DecodesTo(codec, e, k) {
          assert k in r;
        } else {
          assert k !in r;
          forall i | 0 <= i < n
            ensures !DecodesTo(codec, entries[i], k)
          {
            if i < n - 1 {
              assert pre[i] == entries[i];
            }
          }
        }
      }
    }
  }

  /** A name no entry decodes to keeps the class it had. */
  lemma {:induction false} LoadClassesUntouched(m: map<string, ClassNode>, entries: seq<Entry>, codec: Codec, k: string)
    requires k in m
    requires forall i :: 0 <= i < |entries| ==> !DecodesTo(codec, entries[i], k)
    ensures k in LoadClasses(m, entries, codec) && LoadClasses(m, entries, codec)[k] == m[k]
    decreases |entries|
  {
    if entries != [] {
      var pre := entries[..|entries| - 1];
      assert forall i :: 0 <= i < |pre| ==> pre[i] == entries[i];
      LoadClassesUntouched(m, pre, codec, k);
      LoadClassesStep(m, entries, codec);
    }
  }

  /** `put` overwrites: a name holds the class of the last entry that decodes to it. */
  lemma {:induction false} LoadClassesLastWins(m: map<string, ClassNode>, entries: seq<Entry>, codec: Codec, i: int)
    requires IsLastDecoding(codec, entries, i)
    ensures var c := codec.decode(entries[i].data).value;
      c.name in LoadClasses(m, entries, codec) && LoadClasses(m, entries, codec)[c.name] == c
    decreases |entries|
  {
    var n := |entries|;
    var pre := entries[..n - 1];
    LoadClassesStep(m, entries, codec);
    if i < n - 1 {
      assert forall j :: 0 <= j < |pre| ==> pre[j] == entries[j];
      assert IsLastDecoding(codec, pre, i);
      LoadClassesLastWins(m, pre, codec, i);
    }
  }

  /** Every class the loader stores is keyed by its own name. */
  lemma {:induction false} LoadClassesKeyed(m: map<string, ClassNode>, entries: seq<Entry>, codec: Codec)
    requires Keyed(m)
    ensures Keyed(LoadClasses(m, entries, codec))
    decreases |entries|
  {
    if entries != [] {
      LoadClassesKeyed(m, entries[..|entries| - 1], codec);
      LoadClassesStep(m, entries, codec);
    }
  }

  /** Entry `i` is copied to the output: it is the first passthrough entry with its name. */
  predicate IsFirstPassthrough(entries: seq<Entry>, i: int)
  {
    && 0 <= i < |entries|
    && IsPassthrough(entries[i])
    && forall j :: 0 <= j < i ==> !(IsPassthrough(entries[j]) && entries[j].name == entries[i].name)
  }

  /** Every passthrough name has a first occurrence. */
  lemma {:induction false} FirstOccurrence(entries: seq<Entry>, j: int)
    requires 0 <= j < |entries| && IsPassthrough(entries[j])
    ensures exists i :: 0 <= i <= j && IsFirstPassthrough(entries, i) && entries[i].name == entries[j].name
    decreases j
  {
    if !IsFirstPassthrough(entries, j) {
      var k :| 0 <= k < j && IsPassthrough(entries[k]) && entries[k].name == entries[j].name;
      FirstOccurrence(entries, k);
    }
  }

  /** One step of `Passthrough`. */
  lemma PassthroughStep(entries: seq<Entry>)
    requires entries != []
    ensures var before := Passthrough(entries[..|entries| - 1]);
      var e := entries[|entries| - 1];
      Passthrough(entries)
        == if IsPassthrough(e) && e.name !in EntryNames(before) then before + [OutEntry(e.name, e.data)] else before
  {
  }

  /** Appending an entry changes no earlier first-occurrence verdict. */
  lemma FirstPassthroughPrefix(entries: seq<Entry>, i: int)
    requires 0 <= i < |entries| - 1
    ensures IsFirstPassthrough(entries[..|entries| - 1], i) <==> IsFirstPassthrough(entries, i)
  {
    assert forall j :: 0 <= j <= i ==> entries[..|entries| - 1][j] == entries[j];
  }

  /**
   * `idx` lists, in increasing order, the positions of the first passthrough
   * entry of every name, and `w` is those entries, name and bytes.
   */
  ghost predicate FirstOccurrences(entries: seq<Entry>, w: seq<OutEntry>, idx: seq<int>)
  {
    && |idx| == |w|
    && (forall j :: 0 <= j < |idx| ==>
          IsFirstPassthrough(entries, idx[j]) && w[j] == OutEntry(entries[idx[j]].name, entries[idx[j]].data))
    && (forall j1, j2 :: 0 <= j1 < j2 < |idx| ==> idx[j1] < idx[j2])
    && (forall i :: IsFirstPassthrough(entries, i) ==> i in idx)
  }

  /**
   * The passthrough output is exactly the first passthrough entry of each
   * name, byte for byte, in input order: `idx` lists their positions.
   */
  lemma {:induction false} PassthroughSpec(entries: seq<Entry>) returns (idx: seq<int>)
    ensures FirstOccurrences(entries, Passthrough(entries), idx)
    decreases |entries|
  {
    if entries == [] {
      return [];
    }
    var n := |entries|;
    var pre := entries[..n - 1];
    var e := entries[n - 1];
    var idx0 := PassthroughSpec(pre);
    var w0 := Passthrough(pre);
    PassthroughStep(entries);
    LiftIndices(entries, w0, idx0);
    if IsPassthrough(e) && e.name !in EntryNames(w0) {
      NewNameIsFirst(entries, idx0);
      idx := idx0 + [n - 1];
      assert forall j :: 0 <= j < |idx0| ==> idx[j] == idx0[j];
    } else {
      RepeatedNameIsNotFirst(entries, idx0);
      idx := idx0;
    }
    CoverageStep(entries, idx0, idx);
  }

  /** The positions found for the prefix keep their meaning in the whole input. */
  lemma LiftIndices(entries: seq<Entry>, w0: seq<OutEntry>, idx0: seq<int>)
    requires entries != []
    requires FirstOccurrences(entries[..|entries| - 1], w0, idx0)
    ensures forall j :: 0 <= j < |idx0| ==>
      0 <= idx0[j] < |entries| - 1 && IsFirstPassthrough(entries, idx0[j])
      && w0[j] == OutEntry(entries[idx0[j]].name, entries[idx0[j]].data)
  {
    var pre := entries[..|entries| - 1];
    forall j | 0 <= j < |idx0|
      ensures 0 <= idx0[j] < |entries| - 1 && IsFirstPassthrough(entries, idx0[j])
      ensures w0[j] == OutEntry(entries[idx0[j]].name, entries[idx0[j]].data)
    {
      assert IsFirstPassthrough(pre, idx0[j]);
      FirstPassthroughPrefix(entries, idx0[j]);
      assert pre[idx0[j]] == entries[idx0[j]];
    }
  }

  /** Every first occurrence of the whole input is listed once the last entry's verdict is. */
  lemma CoverageStep(entries: seq<Entry>, idx0: seq<int>, idx: seq<int>)
    requires entries != []
    requires forall i :: IsFirstPassthrough(entries[..|entries| - 1], i) ==> i in idx0
    requires forall i :: i in idx0 ==> i in idx
    requires IsFirstPassthrough(entries, |entries| - 1) ==> |entries| - 1 in idx
    ensures forall i :: IsFirstPassthrough(entries, i) ==> i in idx
  {
    forall i | IsFirstPassthrough(entries, i)
      ensures i in idx
    {
      if i < |entries| - 1 {
        FirstPassthroughPrefix(entries, i);
      }
    }
  }

  /** A passthrough name the output does not have yet is met for the first time. */
  lemma NewNameIsFirst(entries: seq<Entry>, idx0: seq<int>)
    requires entries != []
    requires FirstOccurrences(entries[..|entries| - 1], Passthrough(entries[..|entries| - 1]), idx0)
    requires IsPassthrough(entries[|entries| - 1])
    requires entries[|entries| - 1].name !in EntryNames(Passthrough(entries[..|entries| - 1]))
    ensures IsFirstPassthrough(entries, |entries| - 1)
  {
    var n := |entries|;
    var pre := entries[..n - 1];
    var w0 := Passthrough(pre);
    forall j | 0 <= j < n - 1 && IsPassthrough(entries[j])
      ensures entries[j].name != entries[n - 1].name
    {
      assert pre[j] == entries[j];
      FirstOccurrence(pre, j);
      var i0 :| 0 <= i0 <= j && IsFirstPassthrough(pre, i0) && pre[i0].name == pre[j].name;
      var jj :| 0 <= jj < |idx0| && idx0[jj] == i0;
      assert w0[jj] in w0;
    }
  }

  /** A name already written, or an entry that is not passthrough, is not a first occurrence. */
  lemma RepeatedNameIsNotFirst(entries: seq<Entry>, idx0: seq<int>)
    requires entries != []
    requires |idx0| == |Passthrough(entries[..|entries| - 1])|
    requires forall j :: 0 <= j < |idx0| ==>
      0 <= idx0[j] < |entries| - 1 && IsFirstPassthrough(entries, idx0[j])
      && Passthrough(entries[..|entries| - 1])[j] == OutEntry(entries[idx0[j]].name, entries[idx0[j]].data)
    requires !IsPassthrough(entries[|entries| - 1])
          || entries[|entries| - 1].name in EntryNames(Passthrough(entries[..|entries| - 1]))
    ensures !IsFirstPassthrough(entries, |entries| - 1)
  {
    var n := |entries|;
    var w0 := Passthrough(entries[..n - 1]);
    if IsPassthrough(entries[n - 1]) {
      var o :| o in w0 && o.name == entries[n - 1].name;
      var jj :| 0 <= jj < |w0| && w0[jj] == o;
      assert entries[idx0[jj]].name == entries[n - 1].name;
    }
  }

  /**
   * What `parseInput` writes: every passthrough name exactly once, under
   * entries taken unchanged from the input, and never a class entry name.
   */
  lemma PassthroughProperties(entries: seq<Entry>)
    ensures var w := Passthrough(entries);
      && NamesDistinct(w)
      && (forall i :: 0 <= i < |entries| && IsPassthrough(entries[i]) ==> entries[i].name in EntryNames(w))
      && (forall o :: o in w ==> !EndsWith(o.name, CLASS_SUFFIX))
      && (forall o :: o in w ==> exists i :: 0 <= i < |entries| && IsPassthrough(entries[i]) && o == OutEntry(entries[i].name, entries[i].data))
  {
    var w := Passthrough(entries);
    var idx := PassthroughSpec(entries);
    forall j1, j2 | 0 <= j1 < j2 < |w|
      ensures w[j1].name != w[j2].name
    {
      assert idx[j1] < idx[j2];
      assert IsFirstPassthrough(entries, idx[j2]);
    }
    forall i | 0 <= i < |entries| && IsPassthrough(entries[i])
      ensures entries[i].name in EntryNames(w)
    {
      FirstOccurrence(entries, i);
      var i0 :| 0 <= i0 <= i && IsFirstPassthrough(entries, i0) && entries[i0].name == entries[i].name;
      var j :| 0 <= j < |idx| && idx[j] == i0;
      assert w[j] in w;
    }
    forall o | o in w
      ensures exists i :: 0 <= i < |entries| && IsPassthrough(entries[i]) && o == OutEntry(entries[i].name, entries[i].data)
    {
      var j :| 0 <= j < |w| && w[j] == o;
      assert IsFirstPassthrough(entries, idx[j]);
    }
  }

  /** The entries of the archives opened before the first one that cannot be, in order. */
  function OpenedEntries(archives: seq<Archive>): seq<Entry>
  {
    if archives == [] then []
    else
      match archives[0]
      case Unreadable => []
      case Readable(entries) => entries + OpenedEntries(archives[1..])
  }

  /** Loading two runs of entries one after the other is loading their concatenation. */
  lemma {:induction false} LoadClassesConcat(m: map<string, ClassNode>, es1: seq<Entry>, es2: seq<Entry>, codec: Codec)
    ensures LoadClasses(m, es1 + es2, codec) == LoadClasses(LoadClasses(m, es1, codec), es2, codec)
    decreases |es2|
  {
    if es2 == [] {
      assert es1 + es2 == es1;
    } else {
      var all := es1 + es2;
      assert all[..|all| - 1] == es1 + es2[..|es2| - 1];
      assert all[|all| - 1] == es2[|es2| - 1];
      LoadClassesConcat(m, es1, es2[..|es2| - 1], codec);
      LoadClassesStep(m, all, codec);
      LoadClassesStep(LoadClasses(m, es1, codec), es2, codec);
    }
  }

  /**
   * The library map is one `put` per class entry of the opened archives,
   * taken in order: the loader lemmas above apply to it unchanged.
   */
  lemma {:induction false} ParseLibrariesLoadsOpened(libs: map<string, ClassNode>, archives: seq<Archive>, codec: Codec)
    ensures ParseLibraries(libs, archives, codec) == LoadClasses(libs, OpenedEntries(archives), codec)
    decreases |archives|
  {
    if archives != [] && archives[0].Readable? {
      var es := archives[0].entries;
      ParseLibrariesLoadsOpened(LoadClasses(libs, es, codec), archives[1..], codec);
      LoadClassesConcat(libs, es, OpenedEntries(archives[1..]), codec);
    }
  }

  /** A library name is a class some opened entry decodes to, or one the map already had. */
  lemma ParseLibrariesKeys(libs: map<string, ClassNode>, archives: seq<Archive>, codec: Codec)
    ensures forall k :: k in ParseLibraries(libs, archives, codec) <==>
      k in libs || exists i :: 0 <= i < |OpenedEntries(archives)| && DecodesTo(codec, OpenedEntries(archives)[i], k)
  {
    ParseLibrariesLoadsOpened(libs, archives, codec);
    LoadClassesKeys(libs, OpenedEntries(archives), codec);
  }

  /** An archive that cannot be opened ends library loading: nothing after it is read. */
  lemma {:induction false} ParseLibrariesStops(libs: map<string, ClassNode>, archives: seq<Archive>, rest: seq<Archive>, codec: Codec)
    ensures ParseLibraries(libs, archives + [Unreadable] + rest, codec) == ParseLibraries(libs, archives, codec)
    decreases |archives|
  {
    if archives == [] {
      assert (archives + [Unreadable] + rest)[0] == Unreadable;
    } else {
      assert (archives + [Unreadable] + rest)[0] == archives[0];
      assert (archives + [Unreadable] + rest)[1..] == archives[1..] + [Unreadable] + rest;
      if archives[0].Readable? {
        ParseLibrariesStops(LoadClasses(libs, archives[0].entries, codec), archives[1..], rest, codec);
      }
    }
  }

  /** Every library class is keyed by its own name. */
  lemma {:induction false} ParseLibrariesKeyed(libs: map<string, ClassNode>, archives: seq<Archive>, codec: Codec)
    requires Keyed(libs)
    ensures Keyed(ParseLibraries(libs, archives, codec))
    decreases |archives|
  {
    if archives != [] && archives[0].Readable? {
      LoadClassesKeyed(libs, archives[0].entries, codec);
      ParseLibrariesKeyed(LoadClasses(libs, archives[0].entries, codec), archives[1..], codec);
    }
  }

  // ---------------------------------------------------------------------------
  // Emission: `dumpClasses`

  /** The answers a COMPUTE_FRAMES writer gets to its `getCommonSuperClass` queries, in order. */
  function ResolveAll(reg: Registry, queries: seq<(string, string)>): (r: Result<seq<string>, ResolveError>)
    requires Acyclic(reg)
    ensures r.Success? ==>
      && |r.value| == |queries|
      && forall i :: 0 <= i < |queries| ==> CommonSuperClass(reg, queries[i].0, queries[i].1) == Success(r.value[i])
    ensures r.Failure? <==> exists i :: 0 <= i < |queries| && CommonSuperClass(reg, queries[i].0, queries[i].1).Failure?
    decreases |queries|
  {
    if queries == [] then Success([])
    else
      match CommonSuperClass(reg, queries[0].0, queries[0].1)
      case Failure(e) => Failure(e)
      case Success(a) =>
        match ResolveAll(reg, queries[1..])
        case Failure(e) => Failure(e)
        case Success(rest) =>
          assert forall i :: 1 <= i < |queries| ==> queries[i] == queries[1..][i - 1];
          Success([a] + rest)
  }

  /**
   * How far the `try` block of `dumpClasses` gets for one class. `accept`
   * runs first (a resolver failure there is a `NullPointerException` with a
   * null message); the jar entry is opened next; `toByteArray()` is
   * evaluated only after that, so its failure leaves an open, empty entry.
   */
  datatype FramesOutcome =
    | Encoded(bytes: Bytes)
    | FailedBeforeEntry(thrown: Thrown)
    | FailedAfterEntry(thrown: Thrown)

  function FramesEncode(reg: Registry, codec: Codec, c: ClassNode): (r: FramesOutcome)
    requires Acyclic(reg)
    ensures (exists i :: 0 <= i < |codec.frameQueries(c)|
               && CommonSuperClass(reg, codec.frameQueries(c)[i].0, codec.frameQueries(c)[i].1).Failure?)
            ==> r == FailedBeforeEntry(Thrown(NullPointer, None))
    ensures !r.FailedBeforeEntry? ==>
      && ResolveAll(reg, codec.frameQueries(c)).Success?
      && codec.acceptFrames(c, ResolveAll(reg, codec.frameQueries(c)).value).None?
    ensures r.Encoded? ==> codec.frameBytes(c, ResolveAll(reg, codec.frameQueries(c)).value) == Success(r.bytes)
    ensures r.FailedAfterEntry? ==> codec.frameBytes(c, ResolveAll(reg, codec.frameQueries(c)).value) == Failure(r.thrown)
    ensures ResolveAll(reg, codec.frameQueries(c)).Success? ==>
      var answers := ResolveAll(reg, codec.frameQueries(c)).value;
      && (codec.acceptFrames(c, answers).Some? ==> r == FailedBeforeEntry(codec.acceptFrames(c, answers).value))
      && (codec.acceptFrames(c, answers).None? && codec.frameBytes(c, answers).Success? ==>
            r == Encoded(codec.frameBytes(c, answers).value))
      && (codec.acceptFrames(c, answers).None? && codec.frameBytes(c, answers).Failure? ==>
            r == FailedAfterEntry(codec.frameBytes(c, answers).error))
  {
    match ResolveAll(reg, codec.frameQueries(c))
    case Failure(_) => FailedBeforeEntry(Thrown(NullPointer, None))
    case Success(answers) =>
      match codec.acceptFrames(c, answers)
      case Some(t) => FailedBeforeEntry(t)
      case None =>
        match codec.frameBytes(c, answers)
        case Success(bytes) => Encoded(bytes)
        case Failure(t) => FailedAfterEntry(t)
  }

  /**
   * The catch block's test: a non-null message, and either a
   * `ClassNotFoundException` or a message mentioning JSR/RET.
   */
  predicate RetriesWithMaxs(t: Thrown)
  {
    t.message.Some? && (t.kind == ClassNotFound || HasSubstring(t.message.value, "JSR/RET"))
  }

  /**
   * What `dumpClasses` leaves for one class: the entry it wrote, if any, and
   * the exception that escaped the loop, if any.
   */
  datatype Emission = Emission(entry: Option<Bytes>, halt: Option<Thrown>)

  /**
   * The catch block: a retryable exception runs `accept` on a COMPUTE_MAXS
   * writer, whose own exception is not caught; any other exception is printed.
   */
  function Retry(codec: Codec, c: ClassNode, t: Thrown): Option<Thrown>
  {
    if RetriesWithMaxs(t) then codec.acceptMaxs(c) else None
  }

  /**
   * The outcome of one class. An entry is written exactly when `accept`
   * succeeds: with the COMPUTE_FRAMES bytes, or empty when `toByteArray()`
   * fails. The run halts exactly when a retryable exception is followed by a
   * failing COMPUTE_MAXS `accept`. A resolver failure writes nothing and
   * never halts.
   */
  function EmitClass(reg: Registry, codec: Codec, c: ClassNode): (r: Emission)
    requires Acyclic(reg)
    ensures var frames := FramesEncode(reg, codec, c);
      && (r.entry.Some? <==> !frames.FailedBeforeEntry?)
      && (frames.Encoded? ==> r == Emission(Some(frames.bytes), None))
      && (frames.FailedAfterEntry? ==> r.entry == Some([]))
      && (r.halt.Some? <==> !frames.Encoded? && RetriesWithMaxs(frames.thrown) && codec.acceptMaxs(c).Some?)
      && (r.halt.Some? ==> r.halt == codec.acceptMaxs(c))
    ensures (exists i :: 0 <= i < |codec.frameQueries(c)|
               && CommonSuperClass(reg, codec.frameQueries(c)[i].0, codec.frameQueries(c)[i].1).Failure?)
            ==> r == Emission(None, None)
  {
    match FramesEncode(reg, codec, c)
    case Encoded(bytes) => Emission(Some(bytes), None)
    case FailedBeforeEntry(t) => Emission(None, Retry(codec, c, t))
    case FailedAfterEntry(t) => Emission(Some([]), Retry(codec, c, t))
  }

  /**
   * The COMPUTE_MAXS retry contributes no bytes: whatever it does, the entry
   * written for the class is the same; it only decides whether the run halts.
   */
  lemma RetryWritesNothing(reg: Registry, codec: Codec, maxs: ClassNode -> Option<Thrown>, c: ClassNode)
    requires Acyclic(reg)
    ensures EmitClass(reg, codec.(acceptMaxs := maxs), c).entry == EmitClass(reg, codec, c).entry
    ensures maxs(c) == codec.acceptMaxs(c) ==> EmitClass(reg, codec.(acceptMaxs := maxs), c) == EmitClass(reg, codec, c)
  {
    assert FramesEncode(reg, codec.(acceptMaxs := maxs), c) == FramesEncode(reg, codec, c);
  }

  /** The output entry of class `k`: its internal name with `.class` appended. */
  function ClassEntryName(k: string): string
  {
    k + CLASS_SUFFIX
  }

  /** What `dumpClasses` does with each class of the registry's input map. */
  function Emissions(reg: Registry, codec: Codec): (em: map<string, Emission>)
    requires Acyclic(reg)
    ensures em.Keys == reg.classes.Keys
  {
    map k | k in reg.classes :: EmitClass(reg, codec, reg.classes[k])
  }

  /** `o` is the entry written for some class. */
  predicate IsEmitted(em: map<string, Emission>, o: OutEntry)
  {
    exists k :: k in em && em[k].entry.Some? && o == OutEntry(ClassEntryName(k), em[k].entry.value)
  }

  /** An iteration order of a key set: every key exactly once. */
  method ChooseOrder(keys: set<string>) returns (order: seq<string>)
    ensures forall k :: k in keys <==> k in order
    ensures forall i, j :: 0 <= i < j < |order| ==> order[i] != order[j]
  {
    order := [];
    var todo := keys;
    while todo != {}
      invariant todo !! (set k | k in order) && todo + (set k | k in order) == keys
      invariant forall i, j :: 0 <= i < j < |order| ==> order[i] != order[j]
      decreases |todo|
    {
      var k :| k in todo;
      order := order + [k];
      todo := todo - {k};
    }
  }

  /** The entries written for the keys of `order`, in that order: one per key whose emission is a write. */
  function WrittenFor(em: map<string, Emission>, order: seq<string>): seq<OutEntry>
    requires forall k :: k in order ==> k in em
    decreases |order|
  {
    if order == [] then []
    else
      var last := order[|order| - 1];
      var before := WrittenFor(em, order[..|order| - 1]);
      if em[last].entry.Some? then before + [OutEntry(ClassEntryName(last), em[last].entry.value)] else before
  }

  /**
   * For an order without repeats, the entries written are the writes of
   * exactly the keys visited, each under its own name, and no name twice.
   */
  lemma {:induction false} WrittenForSpec(em: map<string, Emission>, order: seq<string>)
    requires forall k :: k in order ==> k in em
    requires forall i, j :: 0 <= i < j < |order| ==> order[i] != order[j]
    ensures var w := WrittenFor(em, order);
      && (forall o :: o in w ==> IsEmitted(em, o) && EndsWith(o.name, CLASS_SUFFIX))
      && (forall k :: k in order && em[k].entry.Some? ==> OutEntry(ClassEntryName(k), em[k].entry.value) in w)
      && (forall o :: o in w ==> exists k :: k in order && o.name == ClassEntryName(k))
      && NamesDistinct(w)
    decreases |order|
  {
    if order != [] {
      var pre := order[..|order| - 1];
      var last := order[|order| - 1];
      WrittenForSpec(em, pre);
      var before := WrittenFor(em, pre);
      assert forall k :: k in order ==> k in pre || k == last;
      assert last !in pre;
      if em[last].entry.Some? {
        var o := OutEntry(ClassEntryName(last), em[last].entry.value);
        ConcatEndsWith(last, CLASS_SUFFIX);
        assert IsEmitted(em, o);
        forall p | p in before
          ensures p.name != o.name
        {
          var k :| k in pre && p.name == ClassEntryName(k);
          if p.name == o.name {
            ConcatSuffixInjective(k, last, CLASS_SUFFIX);
          }
        }
        assert forall j :: 0 <= j < |before| ==> before[j] in before;
      }
    }
  }

  /**
   * When only the last key of `order` may halt, every written entry but the
   * last belongs to a class that did not halt.
   */
  lemma WrittenBeforeHalt(em: map<string, Emission>, order: seq<string>)
    requires forall k :: k in order ==> k in em
    requires forall i, j :: 0 <= i < j < |order| ==> order[i] != order[j]
    requires |order| >= 1
    requires forall j :: 0 <= j < |order| - 1 ==> em[order[j]].halt.None?
    ensures var w := WrittenFor(em, order);
      forall j, k :: 0 <= j < |w| - 1 && k in em && w[j].name == ClassEntryName(k) ==> em[k].halt.None?
  {
    var pre := order[..|order| - 1];
    var w := WrittenFor(em, order);
    var before := WrittenFor(em, pre);
    WrittenForSpec(em, pre);
    assert |w| - 1 <= |before| && forall j :: 0 <= j < |w| - 1 ==> w[j] == before[j];
    forall j, k | 0 <= j < |w| - 1 && k in em && w[j].name == ClassEntryName(k)
      ensures em[k].halt.None?
    {
      assert before[j] in before;
      var k' :| k' in pre && before[j].name == ClassEntryName(k');
      ConcatSuffixInjective(k, k', CLASS_SUFFIX);
      var idx :| 0 <= idx < |pre| && pre[idx] == k';
      assert order[idx] == k';
    }
  }

  /** The visited prefix of an order written after `out`: each a class's own write, no name twice. */
  lemma AppendedEmissions(em: map<string, Emission>, order: seq<string>, out: seq<OutEntry>)
    requires forall k :: k in order ==> k in em
    requires forall i, j :: 0 <= i < j < |order| ==> order[i] != order[j]
    ensures var written := out + WrittenFor(em, order);
      && |written| >= |out| && written[..|out|] == out
      && (forall j :: |out| <= j < |written| ==> IsEmitted(em, written[j]))
      && (forall j1, j2 :: |out| <= j1 < j2 < |written| ==> written[j1].name != written[j2].name)
      && (forall k :: k in order && em[k].entry.Some? ==> OutEntry(ClassEntryName(k), em[k].entry.value) in written[|out|..])
  {
    var emitted := WrittenFor(em, order);
    var written := out + emitted;
    WrittenForSpec(em, order);
    assert written[..|out|] == out;
    assert written[|out|..] == emitted;
    forall j | |out| <= j < |written|
      ensures IsEmitted(em, written[j])
    {
      assert written[j] == emitted[j - |out|] && emitted[j - |out|] in emitted;
    }
  }

  /** The loop halts exactly when some class halts: the first one it meets. */
  lemma HaltOutcome(em: map<string, Emission>, order: seq<string>, i: int, halted: bool)
    requires forall k :: k in em.Keys <==> k in order
    requires 0 <= i <= |order| && (!halted ==> i == |order|)
    requires halted ==> i >= 1 && em[order[i - 1]].halt.Some?
    requires forall j :: 0 <= j < (if halted then i - 1 else i) ==> em[order[j]].halt.None?
    ensures halted <==> exists k :: k in em && em[k].halt.Some?
  {
    if halted {
      assert order[i - 1] in em;
    } else {
      forall k | k in em
        ensures em[k].halt.None?
      {
        var j :| 0 <= j < |order| && order[j] == k;
      }
    }
  }

  /**
   * Nothing is written after the class whose exception escaped: every class
   * entry after `out` but the last belongs to a class that did not halt.
   */
  predicate WrittenUpToHalt(em: map<string, Emission>, out: seq<OutEntry>, written: seq<OutEntry>)
  {
    forall j, k :: |out| <= j < |written| - 1 && k in em && written[j].name == ClassEntryName(k) ==> em[k].halt.None?
  }

  /**
   * `dumpClasses` over the table of per-class outcomes (`Emissions`): every
   * class, in the map's iteration order (an order the model leaves open), is
   * emitted after `out`; `halted` reports an exception escaping the loop,
   * which ends it before the output is closed.
   */
  method DumpClasses(em: map<string, Emission>, out: seq<OutEntry>) returns (written: seq<OutEntry>, halted: bool)
    ensures |written| >= |out| && written[..|out|] == out
    ensures forall j :: |out| <= j < |written| ==> IsEmitted(em, written[j])
    ensures forall j1, j2 :: |out| <= j1 < j2 < |written| ==> written[j1].name != written[j2].name
    ensures halted <==> exists k :: k in em && em[k].halt.Some?
    ensures !halted ==> forall k :: k in em && em[k].entry.Some? ==> OutEntry(ClassEntryName(k), em[k].entry.value) in written[|out|..]
    ensures halted ==> WrittenUpToHalt(em, out, written)
  {
    var order := ChooseOrder(em.Keys);
    var emitted: seq<OutEntry> := [];
    halted := false;
    var i := 0;
    while i < |order| && !halted
      invariant 0 <= i <= |order|
      invariant emitted == WrittenFor(em, order[..i])
      invariant halted ==> i >= 1 && em[order[i - 1]].halt.Some?
      invariant forall j :: 0 <= j < (if halted then i - 1 else i) ==> em[order[j]].halt.None?
    {
      var k := order[i];
      assert order[..i + 1][..i] == order[..i];
      if em[k].entry.Some? {
        emitted := emitted + [OutEntry(ClassEntryName(k), em[k].entry.value)];
      }
      if em[k].halt.Some? {
        halted := true;
      }
      i := i + 1;
    }
    written := out + emitted;
    AppendedEmissions(em, order[..i], out);
    HaltOutcome(em, order, i, halted);
    if !halted {
      assert order[..i] == order;
    } else {
      WrittenBeforeHalt(em, order[..i]);
      forall j, k | |out| <= j < |written| - 1 && k in em && written[j].name == ClassEntryName(k)
        ensures em[k].halt.None?
      {
        assert written[j] == emitted[j - |out|];
      }
    }
  }


  // ---------------------------------------------------------------------------
  // `run`

  /** How a run ends: the output closed after every class, or an exception that left it unclosed. */
  datatype RunResult = Completed(written: seq<OutEntry>) | Aborted(written: seq<OutEntry>)

  /** The registry `dumpClasses` sees: the transformed input classes and the libraries. */
  function DumpRegistry(input: Archive, archives: seq<Archive>, codec: Codec): (reg: Registry)
    requires Acyclic(Registry(InputClasses(input, codec), ParseLibraries(map[], archives, codec)))
    ensures Acyclic(reg)
    ensures reg.classes.Keys == InputClasses(input, codec).Keys
    ensures forall k :: k in reg.classes ==> reg.classes[k] == Transform(InputClasses(input, codec)[k])
    ensures reg.libraries == ParseLibraries(map[], archives, codec)
    ensures forall k :: k in reg.classes ==> reg.classes[k].name == k
  {
    var parsed := Registry(InputClasses(input, codec), ParseLibraries(map[], archives, codec));
    TransformPreservesResolution(parsed, OBJECT, OBJECT);
    assert Keyed(InputClasses(input, codec)) by {
      if input.Readable? {
        LoadClassesKeyed(map[], input.entries, codec);
      }
    }
    Registry(TransformAll(parsed.classes), parsed.libraries)
  }

  /** The queries of the frame writer get the same answers before and after the passes. */
  lemma {:induction false} TransformKeepsAnswers(reg: Registry, queries: seq<(string, string)>)
    requires Acyclic(reg)
    ensures Acyclic(Registry(TransformAll(reg.classes), reg.libraries))
    ensures ResolveAll(Registry(TransformAll(reg.classes), reg.libraries), queries) == ResolveAll(reg, queries)
    decreases |queries|
  {
    TransformPreservesResolution(reg, OBJECT, OBJECT);
    if queries != [] {
      TransformPreservesResolution(reg, queries[0].0, queries[0].1);
      TransformKeepsAnswers(reg, queries[1..]);
    }
  }

  /**
   * `run`: open the output, copy the passthrough entries of the input, load
   * and transform its classes, and emit them. Libraries are loaded first, by
   * the constructor. An input that cannot be opened aborts before anything is
   * written.
   */
  method Run(input: Archive, archives: seq<Archive>, codec: Codec) returns (result: RunResult)
    requires Acyclic(Registry(InputClasses(input, codec), ParseLibraries(map[], archives, codec)))
    ensures input.Unreadable? ==> result == Aborted([])
    ensures input.Readable? ==>
      var pass := Passthrough(input.entries);
      var em := Emissions(DumpRegistry(input, archives, codec), codec);
      && |result.written| >= |pass| && result.written[..|pass|] == pass
      && (forall j :: |pass| <= j < |result.written| ==> IsEmitted(em, result.written[j]))
      && NamesDistinct(result.written)
      && (result.Aborted? <==> exists k :: k in em && em[k].halt.Some?)
      && (result.Completed? ==> forall k :: k in em && em[k].entry.Some? ==>
            OutEntry(ClassEntryName(k), em[k].entry.value) in result.written[|pass|..])
      && (result.Aborted? ==> WrittenUpToHalt(em, pass, result.written))
  {
    if input.Unreadable? {
      return Aborted([]);
    }
    var pass := Passthrough(input.entries);
    var reg := DumpRegistry(input, archives, codec);
    var em := Emissions(reg, codec);
    var written, halted := DumpClasses(em, pass);
    PassthroughProperties(input.entries);
    OutputNamesDistinct(written, pass, em);
    result := if halted then Aborted(written) else Completed(written);
  }

  /** Passthrough names never end in `.class` and class entry names always do, so they never collide. */
  lemma OutputNamesDistinct(written: seq<OutEntry>, pass: seq<OutEntry>, em: map<string, Emission>)
    requires |written| >= |pass| && written[..|pass|] == pass
    requires NamesDistinct(pass) && forall o :: o in pass ==> !EndsWith(o.name, CLASS_SUFFIX)
    requires forall j :: |pass| <= j < |written| ==> IsEmitted(em, written[j])
    requires forall j1, j2 :: |pass| <= j1 < j2 < |written| ==> written[j1].name != written[j2].name
    ensures NamesDistinct(written)
  {
    forall j1, j2 | 0 <= j1 < j2 < |written|
      ensures written[j1].name != written[j2].name
    {
      if j1 < |pass| {
        assert written[j1] == pass[j1] && pass[j1] in pass;
        if j2 < |pass| {
          assert written[j2] == pass[j2];
        } else {
          assert IsEmitted(em, written[j2]);
          var k :| k in em && em[k].entry.Some? && written[j2] == OutEntry(ClassEntryName(k), em[k].entry.value);
          ConcatEndsWith(k, CLASS_SUFFIX);
        }
      }
    }
  }
}
