# CNAB dependencies extension

A model of `pkg/cnab/extensions/dependencies.go`, which implements the
`io.cnab.dependencies` bundle extension of the CNAB Dependencies specification
(document 500-CNAB-dependencies). A bundle declares, under that key of its
`Custom` metadata, the other bundles it requires: an optional author-declared
install `Sequence` and a `Requires` map from dependency name to dependency.

The model has three modules.

- `Wrappers` (`wrappers.dfy`): `Option` and `Result`.
- `Enumerations` (`enumerations.dfy`): a sequence that lists each element of a
  set exactly once. The model uses it for the order in which Go iterates a map.
- `Extensions` (`dependencies.dfy`), with four parts:
  - the data model: `Dependencies`, `Dependency`, `DependencyVersion`, a
    `Bundle` reduced to its `Custom` map, and the key and schema constants;
  - the presence check `HasDependencies` and the two readers;
  - the sequencer `ListBySequence`;
  - the naming helper `BuildPrerequisiteInstallationName`.

Go's map iteration order is unspecified. `ListBySequence` therefore takes an
extra parameter `iteration`, which may be any enumeration of the keys of
`Requires`. Its contract holds for every such order.

The JSON re-encode/decode step of the reader is a `Codec`: two total functions
passed as parameters, each of which may fail (`None`). Only the reader's
branching is modelled, not the wire format.

A Go map read of a missing key yields the zero value. `Lookup` models this by
returning `ZeroDependency` (empty name, empty bundle, no version).

The doc comment of `ListBySequence` (dependencies.go:104-105) says the
dependencies are returned by the defined sequence. In the code, only the
length of the sequence decides whether it is used.
A sequence of the right length is always followed. An unknown name in it
yields a zero dependency with just that name
(`UnknownSequenceNameYieldsZeroDependency`). A followed sequence yields every
entry of `Requires` only if it lists every key exactly once
(`DeclaredOrderCoversEntriesOnlyIfWellFormed`), so a repeated or unknown name
always leaves some entry out. For example, `["a","a"]` over entries `a` and `b`
lists `a` twice and `b` not at all (`RepeatedSequenceNameDropsAnEntry`).

## Model

| member | source | states |
|---|---|---|
| Extensions.Lookup | pkg/cnab/extensions/dependencies.go:110 | a Go map read: the entry for a key of the map, and the zero `Dependency` (empty name, empty bundle, no version) for any other name |
| Enumerations.EnumerationExists | pkg/cnab/extensions/dependencies.go:115 | every finite key set has an order that lists each key exactly once, so the iteration-order parameter of `ListBySequence` excludes no map |
| Extensions.Collect | pkg/cnab/extensions/dependencies.go:107-119 | the shared loop of both branches: one output per name, in order; output i is named after name i and has the bundle and version of the map entry for that name, or of the zero value when there is none |
| Extensions.ListBySequence | pkg/cnab/extensions/dependencies.go:106-121 | output length is the size of `Requires`. When the sequence is non-empty and as long as `Requires`, output i is named `Sequence[i]` and has the bundle and version of `Requires[Sequence[i]]`, or an empty bundle and no version if that name is not a key. Otherwise the output names list each key exactly once, and each output has its own entry's bundle and version |
| Extensions.DeclaredOrderIgnoresIteration | pkg/cnab/extensions/dependencies.go:108-113 | in declared order, the result is the same for every map-iteration order |
| Extensions.UnknownSequenceNameYieldsZeroDependency | pkg/cnab/extensions/dependencies.go:110-112 | in declared order, a sequence name with no entry yields the zero dependency with that name, and no error |
| Extensions.MismatchedSequenceIsIgnored | pkg/cnab/extensions/dependencies.go:108 | a sequence whose length differs from `Requires` gives the same result as an empty sequence |
| Extensions.FallbackListsEachEntryOnce | pkg/cnab/extensions/dependencies.go:114-119 | the fallback output repeats no dependency, and its set of elements is exactly the entries of `Requires`, each named after its key |
| Extensions.FallbackIsPermutationOfEntries | pkg/cnab/extensions/dependencies.go:114-119 | the fallback output, as a multiset, is exactly the entries of `Requires`, each named after its key |
| Extensions.FallbackOrdersArePermutations | pkg/cnab/extensions/dependencies.go:114-119 | any two map-iteration orders give fallback outputs that are permutations of each other |
| Extensions.WellFormedSequenceIsAnIterationOrder | pkg/cnab/extensions/dependencies.go:108-119 | a non-empty sequence listing every key once is used. Its output is the fallback output for the iteration order equal to that sequence, so it lists every entry exactly once |
| Extensions.DeclaredOrderCoversEntriesOnlyIfWellFormed | pkg/cnab/extensions/dependencies.go:108-113 | the converse: when the declared sequence is followed and the output contains every entry of `Requires`, the sequence lists every key exactly once |
| Extensions.NoDependenciesListNothing | pkg/cnab/extensions/dependencies.go:107-120 | an empty sequence and an empty `Requires` give an empty list |
| Extensions.DeclaredOrderExample | pkg/cnab/extensions/dependencies.go:108-113 | sequence `["b","a"]` over entries `a` and `b` yields `b` then `a`, each with its own entry's data |
| Extensions.RepeatedSequenceNameDropsAnEntry | pkg/cnab/extensions/dependencies.go:108-113 | sequence `["a","a"]` over entries `a` and `b` is followed: `a` is listed twice and `b` not at all |
| Extensions.HasDependencies | pkg/cnab/extensions/dependencies.go:99-102 | holds exactly when `io.cnab.dependencies` is a key of `Custom` |
| Extensions.DependencyReader | pkg/cnab/extensions/dependencies.go:78-96 | fails with `NotDefined` exactly when the key is absent. Fails with `MarshalFailed` exactly when the key is present and re-encoding fails. Fails with `UnmarshalFailed` exactly when re-encoding succeeds and decoding fails. Otherwise it returns the decoded payload |
| Extensions.ReadDependencies | pkg/cnab/extensions/dependencies.go:60-73 | reports `NotDefined` exactly when the bundle has no dependencies. On any error it returns the empty `Dependencies` and the reader's error. Otherwise it returns the reader's value and no error |
| Extensions.HasDependenciesIffReaderFindsKey | pkg/cnab/extensions/dependencies.go:99-102 | the presence check holds exactly when the reader does not fail with `NotDefined`. Without the key, `ReadDependencies` gives the empty payload and `NotDefined` |
| Extensions.ReadRecoversDeclaredDependencies | pkg/cnab/extensions/dependencies.go:79-95 | a payload that survives the encode/decode round trip is returned unchanged, with no error |
| Extensions.ReadersIgnoreOtherExtensions | pkg/cnab/extensions/dependencies.go:79 | two bundles that agree on the dependencies key read the same, whatever their other custom metadata |
| Extensions.BuildPrerequisiteInstallationName | pkg/cnab/extensions/dependencies.go:124-127 | the name is the installation, then one `-`, then the dependency, with length the sum of the two plus one |
| Extensions.PrerequisiteNameDeterminesDependency | pkg/cnab/extensions/dependencies.go:124-125 | for a fixed installation, equal prerequisite names imply equal dependency names |
| Extensions.PrerequisiteNameDeterminesInstallation | pkg/cnab/extensions/dependencies.go:124-125 | for a fixed dependency, equal prerequisite names imply equal installation names |
| Extensions.PrerequisiteNameExample | pkg/cnab/extensions/dependencies.go:124-125 | `("myapp", "db")` gives `"myapp-db"` |
| Extensions.PrerequisiteNamesCanCollide | pkg/cnab/extensions/dependencies.go:124-125 | `("a-b", "c")` and `("a", "b-c")` give the same name, so the name does not determine the pair |

## Left out

- JSON encoding and decoding (`encoding/json`): an abstract, possibly failing `Codec`; the wire format is not modelled.
- Error message text and `errors.Wrapf` context: a three-case `ReadError` is used instead.
- The type-narrowing failure in `ReadDependencies` (lines 66-68): with a typed reader it cannot arise.
- The `DependenciesExtension` descriptor value and the `RequiredExtension` type (lines 19-24): they register the reader in a registry that is not part of this model.
- The meaning of version `Ranges` and `AllowPrereleases`: opaque data here; matching is done elsewhere.
- Go's concrete map iteration order: replaced by an arbitrary enumeration of the keys, passed as a parameter.
- The Go distinction between a nil and an empty slice or map: both are the empty value here.
- The capacity hint passed to `make` (line 107): it affects allocation only.
- Extensions.ListBySequence: `Version` is a `*DependencyVersion` pointer in Go, so each output shares it with its entry in `Requires`, and the two outputs of a repeated sequence name share it with each other; the model's `Option` is a plain value and has no sharing.
- Extensions.BuildPrerequisiteInstallationName: Go strings are byte sequences, while a Dafny `string` is a sequence of characters, so the length in its contract counts characters, not bytes.
