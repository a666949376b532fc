# go-vaultmaps in Dafny

go-vaultmaps fetches a secret from Vault and writes a Kubernetes ConfigMap manifest. The
secret's `helmSecretValues` field is a flat string of assignments such as
`mysql.ro.password=x,mysql.rw.password=y`. This project models the string handling that
turns that flat string into maps. The logic appears in two places:

- **`test.go`**, the dotted-key expander (module `Expander`, file `expander.dfy`). It splits
  the string on `,`, each entry on `=`, and each key on `.`. It then walks a nested
  `map[string]interface{}` with a map reference `ptr`, making an empty map for every
  missing segment. The tree is the datatype `Node = Leaf(string) | Internal(map<string, Node>)`.
  The walk is the method `InsertEntryWalk`, whose `ptr` is the path from the root to the
  map it refers to; a write through `ptr` is a write into the tree at that path (`Store`).
  The walk is proved equal to the recursive insertion `Put`, and the tree properties are
  proved about `Put`. The outer loop is the method `ExpandSecrets`, proved equal to `Expand`.
  `expander_examples.dfy` proves what particular shapes of input expand to.
- **`vaultmaps.go`** (module `VaultMaps`, file `vaultmaps.dfy`). It covers:
  - the environment defaults of the flags (`LookupEnvOrString`, `FlagDefaults`);
  - the loop that fills the ConfigMap's flat data map (`BuildSecretData`, proved equal to
    `SecretData`);
  - the loop that picks the service name out of the secret path (`FindServiceName`, proved
    equal to `ServiceName`);
  - the ConfigMap name, namespace and output file derived from that name (`BuildManifest`).

`go_strings.dfy` models the parts of Go's `strings` package the program uses, for
one-character separators: `Split`, `Contains` and `ToLower`. It proves the facts about
them that the rest relies on: the piece count, split and join are inverses, and the first
and second pieces of a split. `results.dfy` holds the `Option` and `Result` types. Every
Go panic on these paths becomes a `Failure` value.

The code behaves in ways a reader may not expect:
- The code descends into the last segment too, so `a.b=1` gives `a → b → b = "1"`, not
  `a → b = "1"` (`LastSegmentNestedTwice`).
- `a=1,a.b=2` is not a conflict, because `a=1` left a map under `a`
  (`LeafBesideMap`). A conflict needs a walk through a stored string, as in
  `a.b=1,a.b.b.c=2` (`WalkThroughLeafConflicts`). A conflict ends the program; the
  string is never overwritten.
- Only the text between the first and second `=` is kept, so `k==weird` stores `""`
  (`SecondEqualsDropsRest`).
- An empty input is one empty entry without `=`, and it fails (`EmptyInputFails`); it does
  not give an empty tree.
- Both programs panic on an entry without `=`, and vaultmaps.go panics on a path part that
  contains `service` but no `-`.

## Model

| member | source | states |
|---|---|---|
| `GoStrings.Split` | test.go:13-15 | every piece is free of the separator and there is at least one piece |
| `GoStrings.SplitCount` | test.go:13 | the input splits into exactly one entry more than it has separators |
| `GoStrings.JoinSplit` | test.go:13 | joining the pieces of a split with the separator gives the string back |
| `GoStrings.SplitJoin` | test.go:13 | splitting a join of separator-free pieces gives the pieces back |
| `GoStrings.SplitConcat` | test.go:13 | splitting `a + sep + b` is the split of `a` followed by the split of `b` |
| `GoStrings.SplitHead` | vaultmaps.go:146-147 | `values[0]` is the text before the first `=` (the whole piece when there is none) |
| `GoStrings.SplitFields` | vaultmaps.go:146-147 | `values[1]` exists exactly when the piece has a `=`; it is then the text between the first and the second `=`, and the later pieces are the split of the text after the first `=` |
| `GoStrings.Before` | test.go:14-15 | the result is a separator-free prefix of the input, followed in the input by the separator or by nothing |
| `GoStrings.After` | test.go:14-27 | the input is the text before the first separator, that separator, then the result |
| `GoStrings.ContainsOccurs` | vaultmaps.go:152 | `Contains` holds exactly when the substring occurs at some position |
| `GoStrings.Contains` | vaultmaps.go:152 | a string contains only substrings no longer than itself (position of the match: `ContainsOccurs`) |
| `GoStrings.ToLower` | vaultmaps.go:162-163 | the result has the input's length and is the input lowered character by character |
| `GoStrings.ToLowerIsLower` | vaultmaps.go:162-163 | the result has no upper-case ASCII letter, and lowering twice equals lowering once |
| `GoStrings.ToLowerKeeps` | vaultmaps.go:167 | lowering neither adds nor removes a character that is not a letter (such as `/`) |
| `Expander.BlockedIsLeafOnPath` | test.go:19-23 | the walk is blocked exactly when some non-empty prefix of the key's segments leads to a string leaf |
| `Expander.Put` | test.go:18-27 | after the insertion, the walk down the same segments is never blocked |
| `Expander.PutStoresLeaf` | test.go:24-27 | the value is stored under the final segment's name inside the final segment's own map, at path `segs + [last]` (depth n+1 for n segments) |
| `Expander.PutFrame` | test.go:19-27 | every path that leaves the inserted path looks up the same node before and after the insertion |
| `Expander.PutReusesMaps` | test.go:19-21 | every map on the path is still a map afterwards and keeps all its entries except the one the path continues through, so entries sharing a prefix share its map |
| `Expander.PutLastWins` | test.go:27 | inserting the same key twice equals inserting only the second value |
| `Expander.InsertEntry` | test.go:14-27 | one entry without `=` always fails; on success the top map gains exactly the key's first segment, and that segment holds a map (its full outcome is `InsertEntryOutcome`) |
| `Expander.ExpandFrom` | test.go:13-28 | an entry without `=` anywhere makes the whole expansion fail; on success the top map's keys are the old keys plus the entries' first segments, and a top map holding only maps still holds only maps (order and first failure: `ExpandFromAppend`) |
| `Expander.Expand` | test.go:11-28 | any `,` entry without `=` makes the expansion fail; on success the top-level keys are exactly the entries' first segments and every top-level value is a map, never a string |
| `Expander.KeySegments` | test.go:14-15 | an entry's key has one more segment than its key has dots |
| `Expander.InsertEntryOutcome` | test.go:14-27 | one entry fails with a conflict exactly when a leaf lies on its path. Otherwise it fails exactly when it has no `=`. On success, the text between its first and second `=` is stored at depth segments+1, and nothing off that path changes |
| `Expander.ExpandFromAppend` | test.go:13-28 | entries are processed left to right: expanding `a + b` expands `a`, then `b` from `a`'s result, and the first failure stops everything |
| `Expander.ExpandEntries` | test.go:13 | comma-free entries joined by commas are expanded one by one in order, and there is one entry more than there are commas |
| `Expander.GraftMapAt` | test.go:17-23 | after replacing the map at a path, that path leads to the new map |
| `Expander.GraftTwice` | test.go:20 | replacing the map at a path twice keeps only the second replacement |
| `Expander.GraftDescend` | test.go:23 | descending into a child map extends `ptr` by one segment, and a write below it is a write into that child |
| `Expander.CreateStep` | test.go:19-21 | creating a missing segment's empty map changes neither whether the walk is blocked nor the tree the walk ends in |
| `Expander.DescendStep` | test.go:23-24 | moving `ptr` into a child map leaves the rest of the walk equivalent, seen from the child |
| `Expander.WalkStep` | test.go:18-25 | one turn of the inner loop either meets a string, and then the whole walk is blocked, or keeps the walk invariant one segment further down |
| `Expander.WalkDone` | test.go:27 | at the end of the walk the path is not blocked, and storing the value through `ptr` gives the recursive insertion |
| `Expander.InsertEntryWalk` | test.go:14-27 | the imperative walk with the map reference `ptr` gives exactly `InsertEntry`, panics included |
| `Expander.ExpandSecrets` | test.go:12-28 | the outer loop over the `,` entries gives exactly `Expand` |
| `ExpanderExamples.InsertPlainEntry` | test.go:14-27 | an entry made of plain segments and a plain value fails only on a conflict, and otherwise inserts along exactly those segments |
| `ExpanderExamples.ExpandOneEntry` | test.go:13 | an input without a comma is one entry |
| `ExpanderExamples.ExpandTwoEntries` | test.go:13 | two comma-free entries joined by a comma are inserted first then second |
| `ExpanderExamples.LastSegmentNestedTwice` | test.go:18-27 | `a.b=v` expands to `a → b → b = v` |
| `ExpanderExamples.LeafBesideMap` | test.go:19-27 | `a=x,a.b=y` expands to `a → {a = x, b → b = y}`, with no conflict |
| `ExpanderExamples.SecondEqualsDropsRest` | test.go:14 | `k==w` stores the empty string under `k → k`, and the rest after the second `=` is dropped |
| `ExpanderExamples.WalkThroughLeafConflicts` | test.go:23 | `a.b=x,a.b.b.c=y` fails with a conflict and does not overwrite |
| `ExpanderExamples.SharedPrefix` | test.go:11-28 | `p.q1.s=v1,p.q2.s=v2` yields one `p` map holding both `q1` and `q2`, each with `s` nested twice. This is the shape of the program's own input |
| `ExpanderExamples.EmptyInputFails` | test.go:13-14 | the empty string fails on its missing `=` |
| `VaultMaps.LookupEnvOrString` | vaultmaps.go:65-70 | a key present in the environment gives its value (even when that value is empty); an absent key gives the default |
| `VaultMaps.FlagDefaults` | vaultmaps.go:83-86 | each flag's default is its environment variable when set, else the constant fallback (`.` for the output path) |
| `VaultMaps.FillFrom` | vaultmaps.go:145-148 | a panic names one of the pieces, which has no `=`; on success every piece had a `=` and the old keys are all kept (values: `FillFromSuccess`) |
| `VaultMaps.SecretData` | vaultmaps.go:144-148 | a panic names a `,` piece without `=`; on success every `,` piece has a `=` (keys and values: `SecretDataOutcome`) |
| `VaultMaps.KeysOf` | vaultmaps.go:147 | there are no more distinct keys than pieces |
| `VaultMaps.KeysOfMembers` | vaultmaps.go:146-147 | a string is a key exactly when it is the text before the first `=` of some piece |
| `VaultMaps.AssignedCons` | vaultmaps.go:147 | a later piece's assignment to a key wins over an earlier one |
| `VaultMaps.KeysOfCons` | vaultmaps.go:147 | the keys of `[p] + rest` are `p`'s key together with the keys of `rest` |
| `VaultMaps.AssignedKeys` | vaultmaps.go:147 | a key has an assigned value exactly when it is one of the pieces' keys |
| `VaultMaps.FillFromFailure` | vaultmaps.go:145-148 | the loop panics exactly when a piece has no `=`, and the panic names the first such piece |
| `VaultMaps.FillFromSuccess` | vaultmaps.go:145-148 | on success the keys are the old keys plus the pieces' keys. Each piece key holds the value of the last piece with that key, and other keys keep their old value |
| `VaultMaps.SecretDataOutcome` | vaultmaps.go:144-148 | the data map fails exactly when a `,` piece has no `=`. Otherwise its keys are exactly the pieces' un-expanded keys, at most as many as pieces (commas + 1). Each key holds the text between the first and second `=` of the last piece with that key |
| `VaultMaps.BuildSecretData` | vaultmaps.go:144-148 | the loop filling `myYaml` gives exactly `SecretData` |
| `VaultMaps.ServiceNameFrom` | vaultmaps.go:151-155 | a panic names one of the parts, which contains `service` and has no `-`; on success the name is the starting name or holds no `-` (which part: `ServiceNameFromOutcome`) |
| `VaultMaps.ServiceName` | vaultmaps.go:149-155 | a panic names a `/` part with no `-`; a chosen name holds no `-` (which part: `ServiceNameOutcome`) |
| `VaultMaps.LastServicePartCons` | vaultmaps.go:151-154 | the last part containing `service` in `[p] + rest` is the one in `rest` if any, else `p` if it matches |
| `VaultMaps.LastServicePartIn` | vaultmaps.go:151-152 | the part found is one of the parts and contains `service` |
| `VaultMaps.ServiceNameFromOutcome` | vaultmaps.go:151-155 | the loop panics exactly when a part containing `service` has no `-`. Otherwise the name comes from the last matching part, or is the starting name when no part matches |
| `VaultMaps.ServiceNameOutcome` | vaultmaps.go:149-155 | a secret path fails exactly when a `/` part contains `service` but no `-`. Otherwise the name is the text between the first and second `-` of the last such part, or `""` when there is none, and it contains neither `/` nor `-` |
| `VaultMaps.FindServiceName` | vaultmaps.go:149-155 | the loop overwriting `serviceName` gives exactly `ServiceName` |
| `VaultMaps.Namespace` | vaultmaps.go:163 | the namespace has the service name's length and no upper-case letter |
| `VaultMaps.ConfigMapName` | vaultmaps.go:162 | the ConfigMap's name is the namespace followed by `-secure` |
| `VaultMaps.OutputFile` | vaultmaps.go:167 | for a service name without `/`, the file path's `/` parts are the output directory's followed by `namespace.yaml` |
| `VaultMaps.BuildManifest` | vaultmaps.go:144-167 | it succeeds exactly when both the data map and the service name do; a data-map panic is the one reported when both would panic (names: `ManifestNames`) |
| `VaultMaps.ManifestNames` | vaultmaps.go:156-167 | the namespace is the lowered service name with no upper-case letter, and the ConfigMap name is the namespace plus `-secure`. The file is `outputPath/namespace.yaml`, whose last `/` part is `namespace.yaml`, and the data is the parsed secret |
| `VaultMaps.WriteManifest` | vaultmaps.go:144-167 | the two loops followed by the name derivation give exactly `BuildManifest`: a data panic first, then a service-name panic |

## Left out

- Authentication against Vault, the secret request, the TLS client and JSON
  (un)marshalling (vaultmaps.go:89-142): network I/O and library decoding. The model
  starts from the decoded `helmSecretValues` string and the secret path.
- Flag parsing and `getConfig`'s `%q` formatting (vaultmaps.go:72-88): only the flags'
  environment-derived defaults are modelled (`FlagDefaults`), not command-line overrides.
- Building the ConfigMap beyond its name, namespace and data, YAML serialization
  (vaultmaps.go:156-161, 171-175; test.go:29-33), and creating the file (vaultmaps.go:167-170).
  Only the file path string is modelled.
- The process environment: it is a `map<string, string>` parameter.
- `GoStrings.ToLower`: lowers ASCII letters only; Go's `strings.ToLower` also lowers other
  Unicode letters.
- `GoStrings.Split`: models `strings.Split` for one-character separators only. Those are
  the only separators the program uses.
- Go panics are modelled as `Failure` values. The partial updates a panicking run makes
  before it stops are not modelled, because the program ends and nothing is written.
- Update in place through aliasing: test.go's `ptr` is a reference into the tree. Here it
  is a path, and a write through it rebuilds the tree along that path. This is exact
  because the Go tree never shares a map between two parents.
- Order of map entries: Go maps are unordered. Sibling order in the YAML output depends
  on the encoder, which is left out.
- test.go's input is a constant. The model takes any input. `SharedPrefix` covers inputs
  of exactly that constant's shape; no lemma evaluates the constant itself.
