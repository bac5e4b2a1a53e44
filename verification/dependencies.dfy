/**
  The `io.cnab.dependencies` bundle extension (CNAB Dependencies specification,
  document 500-CNAB-dependencies): the typed shape of the extension payload,
  reading it out of a bundle's custom metadata, ordering the declared
  dependencies for installation, and naming the installation of a prerequisite.
 */
module Extensions {
  import opened Wrappers
  import opened Enumerations

  /** The custom-metadata key under which a bundle declares its dependencies. */
  const DependenciesKey: string := "io.cnab.dependencies"

  /** The JSON schema that the extension payload follows. */
  const DependenciesSchema: string := "https://cnab.io/v1/dependencies.schema.json"

  // ---------------------------------------------------------------------------
  // Dependency model
  // ---------------------------------------------------------------------------

  /** The versions of a dependency that are acceptable; range syntax is opaque here. */
  datatype DependencyVersion = DependencyVersion(Ranges: seq<string>, AllowPrereleases: bool)

  /** One required bundle; `Version` is `None` when any version is accepted. */
  datatype Dependency = Dependency(Name: string, Bundle: string, Version: Option<DependencyVersion>)

  /** The whole extension payload: an optional install order and the required bundles by name. */
  datatype Dependencies = Dependencies(Sequence: seq<string>, Requires: map<string, Dependency>)

  /** The zero value of a Go `Dependency`, which is what a map read of a missing key yields. */
  const ZeroDependency: Dependency := Dependency("", "", None)

  /** The zero value of a Go `Dependencies`, returned alongside every read error. */
  const NoDependencies: Dependencies := Dependencies([], map[])

  /** A bundle, reduced to its custom-metadata section; `V` is the untyped metadata value. */
  datatype Bundle<V> = Bundle(Custom: map<string, V>)

  /**
    The JSON round trip the reader performs: re-encoding an untyped value to
    bytes, then decoding the bytes into the typed payload. Either step may fail.
   */
  datatype Codec<!V> = Codec(Marshal: V -> Option<seq<bv8>>, Unmarshal: seq<bv8> -> Option<Dependencies>)

  /** Why a bundle's dependencies could not be read. */
  datatype ReadError =
    | NotDefined       // the bundle has no dependencies extension
    | MarshalFailed    // the untyped payload could not be re-encoded
    | UnmarshalFailed  // the encoded payload does not decode into `Dependencies`

  // ---------------------------------------------------------------------------
  // Presence check and readers
  // ---------------------------------------------------------------------------

  /** The bundle declares the dependencies extension. */
  predicate HasDependencies<V>(b: Bundle<V>)
    ensures HasDependencies(b) <==> "io.cnab.dependencies" in b.Custom
  {
    DependenciesKey in b.Custom
  }

  /** Reads the typed dependencies payload out of a bundle's custom metadata. */
  function DependencyReader<V>(codec: Codec<V>, b: Bundle<V>): (r: Result<Dependencies, ReadError>)
    ensures r == Failure(NotDefined) <==> DependenciesKey !in b.Custom
    ensures r == Failure(MarshalFailed) <==>
      DependenciesKey in b.Custom && codec.Marshal(b.Custom[DependenciesKey]).None?
    ensures r == Failure(UnmarshalFailed) <==>
      && DependenciesKey in b.Custom
      && codec.Marshal(b.Custom[DependenciesKey]).Some?
      && codec.Unmarshal(codec.Marshal(b.Custom[DependenciesKey]).value).None?
    ensures r.Success? ==>
      && DependenciesKey in b.Custom
      && codec.Marshal(b.Custom[DependenciesKey]).Some?
      && codec.Unmarshal(codec.Marshal(b.Custom[DependenciesKey]).value) == Some(r.value)
  {
    if DependenciesKey !in b.Custom then
      Failure(NotDefined)
    else
      match codec.Marshal(b.Custom[DependenciesKey])
      case None => Failure(MarshalFailed)
      case Some(bytes) =>
        match codec.Unmarshal(bytes)
        case None => Failure(UnmarshalFailed)
        case Some(deps) => Success(deps)
  }

  /**
    The typed convenience reader: the payload and no error, or the empty
    payload together with the error the reader reported.
   */
  function ReadDependencies<V>(codec: Codec<V>, b: Bundle<V>): (r: (Dependencies, Option<ReadError>))
    ensures r.1 == Some(NotDefined) <==> !HasDependencies(b)
    ensures r.1.Some? ==> r.0 == NoDependencies && DependencyReader(codec, b) == Failure(r.1.value)
    ensures r.1.None? ==> DependencyReader(codec, b) == Success(r.0)
  {
    match DependencyReader(codec, b)
    case Failure(e) => (NoDependencies, Some(e))
    case Success(deps) => (deps, None)
  }

  /** The presence check answers exactly the reader's first question. */
  lemma HasDependenciesIffReaderFindsKey<V>(codec: Codec<V>, b: Bundle<V>)
    ensures HasDependencies(b) <==> DependencyReader(codec, b) != Failure(NotDefined)
    ensures !HasDependencies(b) ==> ReadDependencies(codec, b) == (NoDependencies, Some(NotDefined))
  {
  }

  /** A payload that survives the encode/decode round trip is read back unchanged. */
  lemma ReadRecoversDeclaredDependencies<V>(codec: Codec<V>, b: Bundle<V>, bytes: seq<bv8>, deps: Dependencies)
    requires DependenciesKey in b.Custom
    requires codec.Marshal(b.Custom[DependenciesKey]) == Some(bytes)
    requires codec.Unmarshal(bytes) == Some(deps)
    ensures ReadDependencies(codec, b) == (deps, None)
  {
  }

  /** Only the dependencies key of the custom metadata influences the readers. */
  lemma ReadersIgnoreOtherExtensions<V>(codec: Codec<V>, b: Bundle<V>, b': Bundle<V>)
    requires DependenciesKey in b.Custom <==> DependenciesKey in b'.Custom
    requires DependenciesKey in b.Custom ==> b.Custom[DependenciesKey] == b'.Custom[DependenciesKey]
    ensures DependencyReader(codec, b) == DependencyReader(codec, b')
    ensures ReadDependencies(codec, b) == ReadDependencies(codec, b')
  {
  }

  // ---------------------------------------------------------------------------
  // Sequencer
  // ---------------------------------------------------------------------------

  /** A Go map read: the entry for `name`, or the zero value when there is none. */
  function Lookup(m: map<string, Dependency>, name: string): (dep: Dependency)
    ensures name in m ==> dep == m[name]
    ensures name !in m ==> dep.Name == "" && dep.Bundle == "" && dep.Version == None
  {
    if name in m then m[name] else ZeroDependency
  }

  /** The author-declared order is used: it is non-empty and as long as `Requires`. */
  predicate InSequenceOrder(d: Dependencies) {
    |d.Sequence| > 0 && |d.Sequence| == |d.Requires|
  }

  /** The `Name` of every dependency, in order. */
  function NamesOf(deps: seq<Dependency>): seq<string> {
    seq(|deps|, i requires 0 <= i < |deps| => deps[i].Name)
  }

  /** Every entry of `m`, with its `Name` set to its key. */
  function Entries(m: map<string, Dependency>): set<Dependency> {
    set name | name in m :: m[name].(Name := name)
  }

  /**
    The loop both branches of the sequencer run: look each name up, overwrite
    the `Name` of what was found with that name, and append it.
   */
  function Collect(names: seq<string>, m: map<string, Dependency>): (deps: seq<Dependency>)
    ensures |deps| == |names|
    ensures forall i | 0 <= i < |names| ::
      && deps[i].Name == names[i]
      && deps[i].Bundle == Lookup(m, names[i]).Bundle
      && deps[i].Version == Lookup(m, names[i]).Version
  {
    if names == [] then [] else [Lookup(m, names[0]).(Name := names[0])] + Collect(names[1..], m)
  }

  /**
    The dependencies in installation order. `iteration` is the order in which
    the Go runtime happens to iterate `d.Requires`: any enumeration of its keys.
    It matters only when the declared sequence is not used.
   */
  function ListBySequence(d: Dependencies, iteration: seq<string>): (deps: seq<Dependency>)
    requires IsEnumeration(iteration, d.Requires.Keys)
    ensures |deps| == |d.Requires|
    // Declared order: position i is named after Sequence[i] and carries that entry's data.
    ensures InSequenceOrder(d) ==> forall i | 0 <= i < |deps| ::
      && deps[i].Name == d.Sequence[i]
      && (d.Sequence[i] in d.Requires ==>
            deps[i].Bundle == d.Requires[d.Sequence[i]].Bundle &&
            deps[i].Version == d.Requires[d.Sequence[i]].Version)
      && (d.Sequence[i] !in d.Requires ==> deps[i].Bundle == "" && deps[i].Version == None)
    // Fallback: every key exactly once, each carrying its own entry's data.
    ensures !InSequenceOrder(d) ==>
      && IsEnumeration(NamesOf(deps), d.Requires.Keys)
      && forall i | 0 <= i < |deps| ::
           && deps[i].Name in d.Requires
           && deps[i].Bundle == d.Requires[deps[i].Name].Bundle
           && deps[i].Version == d.Requires[deps[i].Name].Version
  {
    if InSequenceOrder(d) then
      Collect(d.Sequence, d.Requires)
    else
      EnumerationLength(iteration, d.Requires.Keys);
      var deps := Collect(iteration, d.Requires);
      assert NamesOf(deps) == iteration;
      deps
  }

  /** In declared order the result does not depend on how the map is iterated. */
  lemma DeclaredOrderIgnoresIteration(d: Dependencies, it1: seq<string>, it2: seq<string>)
    requires IsEnumeration(it1, d.Requires.Keys) && IsEnumeration(it2, d.Requires.Keys)
    requires InSequenceOrder(d)
    ensures ListBySequence(d, it1) == ListBySequence(d, it2)
  {
  }

  /** In declared order, a name with no entry yields a zero dependency carrying just that name. */
  lemma UnknownSequenceNameYieldsZeroDependency(d: Dependencies, iteration: seq<string>, i: int)
    requires IsEnumeration(iteration, d.Requires.Keys)
    requires InSequenceOrder(d)
    requires 0 <= i < |d.Sequence| && d.Sequence[i] !in d.Requires
    ensures ListBySequence(d, iteration)[i] == ZeroDependency.(Name := d.Sequence[i])
  {
  }

  /** A sequence whose length differs from `Requires` is ignored altogether. */
  lemma MismatchedSequenceIsIgnored(d: Dependencies, iteration: seq<string>)
    requires IsEnumeration(iteration, d.Requires.Keys)
    requires |d.Sequence| != |d.Requires|
    ensures ListBySequence(d, iteration) == ListBySequence(d.(Sequence := []), iteration)
  {
  }

  /** The fallback lists no dependency twice, and lists exactly the entries of `Requires`. */
  lemma FallbackListsEachEntryOnce(d: Dependencies, iteration: seq<string>)
    requires IsEnumeration(iteration, d.Requires.Keys)
    requires !InSequenceOrder(d)
    ensures Distinct(ListBySequence(d, iteration))
    ensures Elements(ListBySequence(d, iteration)) == Entries(d.Requires)
  {
  }

  /** The fallback output is a permutation of the entries of `Requires`, each named after its key. */
  lemma FallbackIsPermutationOfEntries(d: Dependencies, iteration: seq<string>)
    requires IsEnumeration(iteration, d.Requires.Keys)
    requires !InSequenceOrder(d)
    ensures multiset(ListBySequence(d, iteration)) == multiset(Entries(d.Requires))
  {
    FallbackListsEachEntryOnce(d, iteration);
    DistinctMultiset(ListBySequence(d, iteration));
  }

  /** Two runs of the fallback list the same dependencies, possibly in different orders. */
  lemma FallbackOrdersArePermutations(d: Dependencies, it1: seq<string>, it2: seq<string>)
    requires IsEnumeration(it1, d.Requires.Keys) && IsEnumeration(it2, d.Requires.Keys)
    requires !InSequenceOrder(d)
    ensures multiset(ListBySequence(d, it1)) == multiset(ListBySequence(d, it2))
  {
    FallbackIsPermutationOfEntries(d, it1);
    FallbackIsPermutationOfEntries(d, it2);
  }

  /**
    A declared sequence that lists every key exactly once is itself one of the
    orders the fallback could have produced, so it too yields every entry once.
   */
  lemma {:induction false} WellFormedSequenceIsAnIterationOrder(d: Dependencies, iteration: seq<string>)
    requires IsEnumeration(iteration, d.Requires.Keys)
    requires d.Sequence != [] && IsEnumeration(d.Sequence, d.Requires.Keys)
    ensures InSequenceOrder(d)
    ensures ListBySequence(d, iteration) == ListBySequence(d.(Sequence := []), d.Sequence)
    ensures multiset(ListBySequence(d, iteration)) == multiset(Entries(d.Requires))
  {
    EnumerationLength(d.Sequence, d.Requires.Keys);
    FallbackIsPermutationOfEntries(d.(Sequence := []), d.Sequence);
  }

  /**
    Conversely, a declared sequence that is followed and yields every entry of
    `Requires` lists every key exactly once: any repeated or unknown name in a
    followed sequence leaves some entry out.
   */
  lemma {:induction false} DeclaredOrderCoversEntriesOnlyIfWellFormed(d: Dependencies, iteration: seq<string>)
    requires IsEnumeration(iteration, d.Requires.Keys)
    requires InSequenceOrder(d)
    requires Entries(d.Requires) <= Elements(ListBySequence(d, iteration))
    ensures IsEnumeration(d.Sequence, d.Requires.Keys)
  {
    var deps := ListBySequence(d, iteration);
    forall name | name in d.Requires
      ensures name in Elements(d.Sequence)
    {
      var x := d.Requires[name].(Name := name);
      assert x in Entries(d.Requires);
      var i :| 0 <= i < |deps| && deps[i] == x;
      assert d.Sequence[i] == name;
    }
    CoveringSequenceIsEnumeration(d.Sequence, d.Requires.Keys);
  }

  /** Nothing declared, nothing listed. */
  lemma NoDependenciesListNothing(iteration: seq<string>)
    requires IsEnumeration(iteration, NoDependencies.Requires.Keys)
    ensures ListBySequence(NoDependencies, iteration) == []
  {
  }

  /** A declared order of `b` then `a` over two entries is followed exactly. */
  lemma DeclaredOrderExample(a: Dependency, b: Dependency, iteration: seq<string>)
    requires IsEnumeration(iteration, {"a", "b"})
    ensures var d := Dependencies(["b", "a"], map["a" := a, "b" := b]);
      ListBySequence(d, iteration) == [b.(Name := "b"), a.(Name := "a")]
  {
    var d := Dependencies(["b", "a"], map["a" := a, "b" := b]);
    assert d.Requires.Keys == {"a", "b"};
    var deps := ListBySequence(d, iteration);
    assert deps[0] == b.(Name := "b") && deps[1] == a.(Name := "a");
  }

  /**
    A sequence of the right length that repeats a name is still followed: the
    repeated dependency is listed twice and the other entry not at all.
   */
  lemma RepeatedSequenceNameDropsAnEntry(a: Dependency, b: Dependency, iteration: seq<string>)
    requires IsEnumeration(iteration, {"a", "b"})
    ensures var d := Dependencies(["a", "a"], map["a" := a, "b" := b]);
      ListBySequence(d, iteration) == [a.(Name := "a"), a.(Name := "a")]
  {
    var d := Dependencies(["a", "a"], map["a" := a, "b" := b]);
    assert d.Requires.Keys == {"a", "b"};
    var deps := ListBySequence(d, iteration);
    assert deps[0] == a.(Name := "a") && deps[1] == a.(Name := "a");
  }

  // ---------------------------------------------------------------------------
  // Naming helper
  // ---------------------------------------------------------------------------

  /** The name of the installation of prerequisite `dependency` of `installation`. */
  function BuildPrerequisiteInstallationName(installation: string, dependency: string): (name: string)
    ensures |name| == |installation| + 1 + |dependency|
    ensures name[..|installation|] == installation
    ensures name[|installation|] == '-'
    ensures name[|installation| + 1..] == dependency
  {
    installation + "-" + dependency
  }

  /** Within one installation, distinct dependencies get distinct installation names. */
  lemma PrerequisiteNameDeterminesDependency(installation: string, d1: string, d2: string)
    requires BuildPrerequisiteInstallationName(installation, d1) == BuildPrerequisiteInstallationName(installation, d2)
    ensures d1 == d2
  {
    var n := BuildPrerequisiteInstallationName(installation, d1);
    assert d1 == n[|installation| + 1..];
  }

  /** For one dependency name, distinct installations get distinct installation names. */
  lemma PrerequisiteNameDeterminesInstallation(i1: string, i2: string, dependency: string)
    requires BuildPrerequisiteInstallationName(i1, dependency) == BuildPrerequisiteInstallationName(i2, dependency)
    ensures i1 == i2
  {
    var n := BuildPrerequisiteInstallationName(i1, dependency);
    assert |i1| == |i2|;
    assert i1 == n[..|i1|];
  }

  /** `myapp`'s prerequisite `db` is installed as `myapp-db`. */
  lemma PrerequisiteNameExample()
    ensures BuildPrerequisiteInstallationName("myapp", "db") == "myapp-db"
  {
  }

  /** Across installations, names with dashes can collide. */
  lemma PrerequisiteNamesCanCollide()
    ensures BuildPrerequisiteInstallationName("a-b", "c") == BuildPrerequisiteInstallationName("a", "b-c")
  {
  }
}
