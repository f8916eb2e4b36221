# go-app core in Dafny

This project models three parts of protomesh/go-app:

- **The generic compressed radix tree** in `structures/radix.go`. It provides `longestPrefix`, `NewRadixTree`, `Insert` with edge splitting, `Delete`, `Match` and `MatchLongest`.
- **The composite configuration source** in `composite_source.go`. It loads its sources in order, answers `Get` by source precedence with a memo cache, and answers `Has`.
- **The string rules of `config.go`.** These are how a struct field's `config` tag yields the configuration key and type name, and how `ApplyFlags` classifies a type name and a `default` tag.

The tree is modelled as an immutable value: `Radix.Node` holds the label, value, children and level. Every operation returns a new tree.

Go's loop over a node's children becomes a pair of mutually recursive functions. The turn of the loop for the first child the key enters is split out as a `*Edge` function (`InsertEdge`, `MatchEdge`, `MatchLongestEdge`, `DeleteEdge`).

The tree follows the code's zero-value sentinel. A value equal to `zero` means "nothing stored", exactly as `zeroValue` does in the source. There is no separate present/absent tag; storing the zero value is indistinguishable from deleting.

Properties are proved in several modules:

- `RadixLemmas`: what `longestPrefix` computes; that a split keeps every stored (path, value) pair; what Insert and Delete change and leave alone; that both keep the structural invariants.
- `RadixPaths`: what the lookups find in terms of the stored pairs.
- `RadixLongest`: what `MatchLongest` returns, in terms of exact matches.
- `RadixHistory`: runs of inserts and deletes.
- `RadixExamples`: the expectations of `structures/radix_test.go`.

Modules:

- `wrappers.dfy`: `Option` and `Result`. `Result.Panic` stands for a Go panic.
- `radix.dfy`, `radix_lemmas.dfy`, `radix_paths.dfy`, `radix_longest.dfy`, `radix_history.dfy`, `radix_examples.dfy`, `radix_findings.dfy`: the radix tree.
- `composite_source.dfy`: the composite source.
- `config_tags.dfy`: the tag and flag rules.

## Model

| member | source | states |
|---|---|---|
| Radix.LongestPrefix | structures/radix.go:3-15 | the result n is at most both lengths; both keys agree on their first n bytes; when n is below both lengths the bytes at n differ |
| Radix.LongestPrefixFrom | structures/radix.go:8-14 | the loop from index i keeps the agreement established below i and stops at the first difference or at the shorter end |
| RadixLemmas.LongestPrefixMaximal | structures/radix.go:3-15 | no common prefix is longer than the one reported |
| RadixLemmas.LongestPrefixUnique | structures/radix.go:3-15 | the characterisation singles out one number, so any n with it is the result |
| RadixLemmas.LongestPrefixFromMaximal | structures/radix.go:9-13 | the loop runs at least as far as any length both keys agree on |
| RadixLemmas.LongestPrefixFromBounded | structures/radix.go:9-13 | the loop stops no later than a length where the keys differ or one ends |
| RadixLemmas.LongestPrefixWhole | structures/radix.go:3-15 | a label the key starts with is consumed whole |
| RadixLemmas.LongestPrefixCut | structures/radix.go:3-15 | cutting the first argument at c caps the common prefix at c |
| RadixLemmas.LongestPrefixTake | structures/radix.go:3-15 | cutting the key at i caps the common prefix at i |
| RadixLemmas.LongestPrefixDrop | structures/radix.go:3-15 | dropping a shared part from both sides shortens the common prefix by its length |
| RadixLemmas.SameKey | structures/radix.go:81-88 | two keys that agree on the consumed part and on the rest are equal |
| Radix.FirstMatch | structures/radix.go:71-80 | the child loop settles on the first child with a non-empty label sharing a first byte with the key, or on none; every earlier child is skipped |
| Radix.FirstMatchFrom | structures/radix.go:71-80 | the same scan from child i on |
| RadixLemmas.EntersHead | structures/radix.go:73-80 | a key is taken by a child exactly when both are non-empty and start with the same byte |
| RadixLemmas.FirstMatchUnique | structures/radix.go:71-80 | any index with the scan's characterisation is the scan's result |
| RadixLemmas.FirstMatchSameHead | structures/radix.go:71-80 | keys with the same first byte are taken by the same child |
| RadixLemmas.FirstMatchReplace | structures/radix.go:84-88 | replacing a child by one whose label keeps its first byte, as a split does, leaves the scan unchanged |
| RadixLemmas.FirstMatchAppend | structures/radix.go:90-99 | appending a child changes the scan only for keys no earlier child takes |
| Radix.NewRadixTree | structures/radix.go:28-39 | the new root has an empty label, level 0 and the zero value; it is well formed; every key matches zero |
| Radix.Split | structures/radix.go:194-212 | split panics exactly when the index is not below the label length; otherwise the node keeps the label's first part and gets the zero value, the same level and exactly one child; that child has the rest of the label, the old value and the old children |
| RadixLemmas.SplitRestEntries | structures/radix.go:199-211 | the new child stores exactly the pairs the node stored |
| RadixLemmas.SplitStoredOld | structures/radix.go:194-212 | every (path, value) pair stored before a split is stored after it |
| RadixLemmas.SplitStoredNew | structures/radix.go:194-212 | a split adds no stored pair except the new branch point with the zero value |
| RadixLemmas.SplitStored | structures/radix.go:194-212 | the pairs after a split are the pairs before plus the branch point holding zero |
| RadixLemmas.SplitMatchEdge | structures/radix.go:84-88 | an exact lookup through a split child finds what it found through the original child |
| RadixLemmas.SplitMatchLongestEdge | structures/radix.go:84-88 | a longest-prefix lookup through a split child finds what it found through the original child |
| Radix.Insert | structures/radix.go:65-100 | Insert keeps the node's label, and keeps its value unless the key is empty |
| Radix.InsertEdge | structures/radix.go:77-88 | the child taken by the key keeps a non-empty label that is a prefix of both its old label and the key |
| RadixLemmas.InsertMatchSame | structures/radix.go:65-100 | after Insert(k, v), Match(k) reads v, so a second insert of k overwrites |
| RadixLemmas.InsertEdgeMatchSame | structures/radix.go:77-88 | the same for one turn of the child loop |
| RadixLemmas.InsertMatchOther | structures/radix.go:65-100 | Insert(k, v) leaves Match(k') unchanged for every k' other than k |
| RadixLemmas.InsertEdgeMatchOther | structures/radix.go:77-88 | the same for one turn of the child loop |
| RadixLemmas.InsertWellFormed | structures/radix.go:71-99 | Insert keeps every child label non-empty and sibling first bytes pairwise distinct, all the way down |
| RadixLemmas.InsertEdgeWellFormed | structures/radix.go:77-88 | the same below the child the key enters |
| Radix.Match | structures/radix.go:132-158 | an empty key reads the node's own value, and a non-empty key at a node without children reads zero; with its partner lemmas, a non-zero result is the value stored at the key's path (RadixPaths.MatchReadsStored) and in a well-formed tree every stored path reads back its value (RadixPaths.StoredIsFound) |
| Radix.MatchEdge | structures/radix.go:143-153 | one turn of Match's child loop; it carries no ensures of its own, and RadixPaths.MatchNonZeroFoundEdge, RadixPaths.FoundIsStoredEdge and RadixPaths.StoredIsFoundEdge state what it reads |
| RadixLemmas.MatchBelow | structures/radix.go:132-158 | the exact lookup of a non-empty key does not read the starting node's value |
| Radix.Delete | structures/radix.go:102-130 | a Delete that reports not found changes nothing; the label is kept, and so is the value unless the key is empty |
| Radix.DeleteEdge | structures/radix.go:114-125 | the same for one turn of the child loop |
| RadixLemmas.DeleteMatchSame | structures/radix.go:102-130 | after Delete(k), Match(k) reads zero |
| RadixLemmas.DeleteEdgeMatchSame | structures/radix.go:114-125 | the same for one turn of the child loop |
| RadixLemmas.DeleteMatchOther | structures/radix.go:102-130 | Delete(k) leaves Match(k') unchanged for every k' other than k |
| RadixLemmas.DeleteEdgeMatchOther | structures/radix.go:114-125 | the same for one turn of the child loop |
| RadixLemmas.DeleteKeepsShape | structures/radix.go:102-130 | Delete never removes, adds or relabels a node and keeps every level; only values change |
| RadixLemmas.DeleteEdgeKeepsShape | structures/radix.go:114-125 | the same for one turn of the child loop |
| RadixLemmas.SameShapeRefl | structures/radix.go:57-63 | every tree has its own shape |
| RadixLemmas.SameShapeSym | structures/radix.go:57-63 | having the same shape is symmetric |
| RadixLemmas.WellFormedShape | structures/radix.go:57-63 | the structural invariants depend only on labels and children, not on values |
| RadixLemmas.DeleteWellFormed | structures/radix.go:102-130 | Delete keeps the structural invariants |
| RadixPaths.EntriesChild | structures/radix.go:57-63 | a child's stored pairs appear in the parent with the child's label in front |
| RadixPaths.OwnEntryOnly | structures/radix.go:57-63 | in a well-formed tree only the node itself has the empty path |
| RadixPaths.FoundIsStored | structures/radix.go:102-130 | when Delete reports found, the key is the path of a node and Match reads that node's value |
| RadixPaths.FoundIsStoredEdge | structures/radix.go:114-125 | the same for one turn of the child loop, which also consumes the child's whole label |
| RadixPaths.MatchNonZeroFound | structures/radix.go:132-158 | a key whose exact match is non-zero is found by Delete |
| RadixPaths.MatchNonZeroFoundEdge | structures/radix.go:143-153 | the same for one turn of the child loop |
| RadixPaths.MatchReadsStored | structures/radix.go:132-158 | a non-zero exact match is the value stored at the key's path |
| RadixPaths.StoredIsFound | structures/radix.go:132-158 | in a well-formed tree, following the labels that spell a stored path reaches its node: Delete finds it and Match reads its value |
| RadixPaths.StoredIsFoundEdge | structures/radix.go:143-153 | the same through the child whose label starts the path |
| RadixPaths.DeleteFoundIffPath | structures/radix.go:102-130 | in a well-formed tree, Delete reports found exactly for the paths of existing nodes |
| RadixPaths.MatchOffPath | structures/radix.go:149-157 | a key that is no node's path, because it leaves an edge midway or no child shares its first byte, matches zero |
| Radix.MatchLongest | structures/radix.go:160-192 | an empty key, or a key at a node without children, reads the node's own value; with its partner lemma RadixLongest.MatchLongestDeepest, the result is the deepest non-zero exact match among the key's prefixes, falling back to the starting node's value only when no child takes the key |
| Radix.MatchLongestEdge | structures/radix.go:171-187 | one turn of MatchLongest's child loop: a key shorter than the child's label ends inside it and reads zero; RadixLongest.MatchLongestEdgeDeepest states the fallback to the child's value |
| RadixLongest.MatchLongestDeepest | structures/radix.go:160-192 | MatchLongest gives the starting node's value when the key is empty or enters no child; otherwise it gives the deepest non-zero exact match among the key's non-empty prefixes, or zero |
| RadixLongest.MatchLongestEdgeDeepest | structures/radix.go:171-187 | below a child, a zero from further down falls back to the child's value, so the turn of the loop gives the deepest non-zero match through that child |
| RadixLongest.DeepestEdgeInside | structures/radix.go:177-178 | prefixes that end inside a child's label, or run past where the key leaves it, match nothing |
| RadixLongest.DeepestEdgeAtChild | structures/radix.go:175-176 | the prefix ending exactly at a child's label matches the child's value |
| RadixLongest.DeepestEdgeBelow | structures/radix.go:181-187 | past a child's label, the prefixes of the key match what the rest of them match below the child |
| RadixLongest.DeepestNoChild | structures/radix.go:165-191 | when no child takes the key, no non-empty prefix of the key matches |
| RadixLongest.DeepestViaChild | structures/radix.go:165-181 | every non-empty prefix of the key goes through the child the key enters |
| RadixLongest.MatchLongestZeroRoot | structures/radix.go:160-192 | with zero at the starting node, MatchLongest is exactly the deepest non-zero exact match along the key |
| RadixLongest.MatchLongestBounds | structures/radix.go:160-192 | MatchLongest never invents a value: it is the deepest non-zero exact match when there is one, and otherwise zero or the starting node's value |
| RadixLongest.MatchLongestExact | structures/radix.go:160-192 | a key with a non-zero exact match gets that value from MatchLongest too |
| RadixLongest.DeepestAllZero | structures/radix.go:160-192 | if every key matches zero, so does the deepest prefix match |
| RadixLongest.MatchLongestAllZero | structures/radix.go:160-192 | a tree in which every exact match is zero gives zero for every longest-prefix lookup |
| RadixLongest.DeepestFallsBack | structures/radix.go:181-187 | with a non-zero match at key[..m] and only zero matches beyond it, the deepest match is the one at m |
| RadixLongest.DeepestNone | structures/radix.go:160-192 | with no non-zero match among the prefixes, the deepest match is zero |
| RadixFindings.MatchLongestFromRoot | structures/radix.go:160-192 | the corrected lookup: the deepest non-zero exact match along the key, and the root's value when there is none |
| RadixFindings.MatchLongestFromRootAgrees | structures/radix.go:160-192 | with zero at the root, the source's MatchLongest already equals the corrected lookup |
| RadixFindings.RootAndFooInserted | structures/radix.go:65-100 | inserting "" with 5 and then "foo" with 1 into a new tree gives a root holding 5 with the single child "foo" holding 1 |
| RadixFindings.RootValueLost | structures/radix.go:160-192 | on that tree the root holds 5, yet MatchLongest("fx") is 0; the corrected lookup gives 5 |
| RadixHistory.InsertAllMatch | structures/radix.go:65-100 | after a run of inserts, each key reads the last value inserted under it, and any other key reads what it read before |
| RadixHistory.InsertAllWellFormed | structures/radix.go:71-99 | a run of inserts keeps the structural invariants |
| RadixHistory.InsertAllAppend | structures/radix.go:65-100 | inserting one run and then another is inserting their concatenation |
| RadixHistory.DeleteAllMatch | structures/radix.go:102-130 | after a run of deletes, each deleted key reads zero and any other key reads what it read before |
| RadixHistory.LastValueAppend | structures/radix_test.go:56-77 | the last value in a concatenated history comes from the later part when that part has the key, and from the earlier part otherwise |
| RadixHistory.LastValueUnlisted | structures/radix_test.go:12-31 | a key that no pair carries keeps the default |
| RadixHistory.LastValueDistinct | structures/radix_test.go:12-31 | with distinct keys, a key reads the value paired with it wherever the pair sits |
| RadixHistory.InsertOrderIrrelevant | structures/radix.go:65-100 | inserting the same pairs with distinct keys in any order, with equal multisets of pairs, leaves every key reading the same value |
| RadixHistory.KeysOf | structures/radix_test.go:131-148 | the keys of a history, one per pair and in order |
| RadixHistory.DeleteEveryInserted | structures/radix_test.go:110-167 | inserting a history into a new tree and then deleting all its keys leaves every key matching zero |
| RadixExamples.TestTreeReads | structures/radix_test.go:12-31 | in a test tree, a key reads the last value the test's history inserted under it |
| RadixExamples.MatchExamples1 | structures/radix_test.go:33-38 | the first six exact lookups of TestRadixMatch give 1 to 6 |
| RadixExamples.MatchExamples2 | structures/radix_test.go:39-44 | the next six give 7 to 12 |
| RadixExamples.MatchExamples3 | structures/radix_test.go:45-52 | the last six give 13 to 18, and "xaxaxaxaxa" gives 0 |
| RadixExamples.AlongFromPrefix | structures/radix_test.go:56-108 | helper for the TestRadixMatchLongest probes: a prefix of a probe agrees with the probe from every index on |
| RadixExamples.NoneLongerFromUnlisted | structures/radix_test.go:56-77 | if no history key longer than m agrees with the probe from index m on, no longer prefix of the probe is a history key |
| RadixExamples.NoneLongerUnlisted | structures/radix_test.go:56-77 | such longer prefixes read the default in that history |
| RadixExamples.LongestProbe | structures/radix_test.go:56-108 | in the TestRadixMatchLongest tree, a probe whose longest inserted prefix is p gets the value last inserted under p, and 0 when no inserted key is a prefix |
| RadixExamples.MatchLongestExamples1 | structures/radix_test.go:79-87 | the first nine longest-prefix lookups of TestRadixMatchLongest |
| RadixExamples.MatchLongestExamples2 | structures/radix_test.go:88-96 | the next nine, including the fallbacks to 7 and to 0 |
| RadixExamples.MatchLongestExamples3 | structures/radix_test.go:97-106 | the last nine, including 20 for "barbarbarbarfoooooo" after the overwrite of 17 at line 76 |
| RadixExamples.DeleteExamples | structures/radix_test.go:150-196 | after TestRadixDelete's deletes, every exact and every longest-prefix lookup gives 0, for the test's probes and for any other key |
| CompositeSource.NewComposite | composite_source.go:8-13 | a new composite has the given sources and an empty cache, which is sound |
| CompositeSource.Load | composite_source.go:15-28 | Load calls the sources' Load in order and stops at the first error, which it returns; with no error every source was loaded |
| CompositeSource.Scan | composite_source.go:38-53 | the loop returns the first source that has a set config and reports Has; otherwise it remembers the last set config, or none |
| CompositeSource.ScanCases | composite_source.go:38-53 | conversely, an explicit result comes from the first such source, and a fallback from the last set config or, with none, from the value carried in |
| CompositeSource.Get | composite_source.go:30-60 | a cached key answers from the cache and changes nothing; otherwise the first explicit source wins and is cached; with none, the last set config is returned uncached; with no set config, EmptyConfig is returned |
| CompositeSource.Has | composite_source.go:62-67 | with a sound cache, Has holds exactly when some source has a set config for the key, or none does and EmptyConfig counts as set; the cache stays sound |
| CompositeSource.HasAnswer | composite_source.go:55-59 | Get answers a set config whenever some source has one, and EmptyConfig otherwise |
| CompositeSource.LastUsableExists | composite_source.go:38-53 | a set config at any source means there is a last one |
| CompositeSource.GetKeepsCacheSound | composite_source.go:44-47 | Get leaves the sources alone and only caches what a cache-free Get would return |
| CompositeSource.GetIgnoresCache | composite_source.go:30-60 | with a sound cache, Get answers what it would answer with no cache at all |
| CompositeSource.GetIdempotent | composite_source.go:30-60 | for every composite, asking twice gives the same config, and the second call changes nothing |
| CompositeSource.CachedIgnoresSources | composite_source.go:32-34 | once a key is cached, Get answers from the cache whatever the sources hold |
| ConfigTags.Split | config.go:50 | splitting on a separator gives at least one piece; no piece contains the separator; joining the pieces gives back the string |
| ConfigTags.JoinHead | config.go:50 | the first piece of a join is its prefix, followed by the end or by a separator and the join of the rest |
| ConfigTags.JoinInjective | config.go:50 | separator-free pieces are determined by their join |
| ConfigTags.SplitJoin | config.go:50 | splitting a join of separator-free pieces gives back the pieces |
| ConfigTags.Qualify | config.go:62-64 | with a prefix the key is prefix, dot, name; without one it is the name |
| ConfigTags.FieldNameAndType | config.go:48-72 | the name is empty, and the result ("", ""), exactly when the tag is empty or starts with a comma |
| ConfigTags.FieldsOfTag | config.go:48-72 | for a tag of comma-free fields with a non-empty first field, the key is the first field qualified by the prefix; the type is the second field, or "string" without one; later fields are ignored |
| ConfigTags.Lower | config.go:116 | lower-casing keeps the length and lowers each ASCII letter |
| ConfigTags.LowerIdempotent | config.go:116 | lower case is already lower case |
| ConfigTags.LowerOfLower | config.go:116 | a string with no upper-case ASCII letter is its own lower case |
| ConfigTags.BoolDefault | config.go:120-133 | a boolean default is accepted exactly when its lower case is one of t, true, y, yes, f, false, n, no, not or empty; it is true exactly for the first four; any other spelling panics with a message naming the key and the default |
| ConfigTags.TrueFalseDisjoint | config.go:124-127 | no spelling is read both as true and as false |
| ConfigTags.BoolDefaultIgnoresCase | config.go:122 | spellings that agree in lower case give the same boolean default |
| ConfigTags.KindOf | config.go:116-196 | an accepted type name is in its kind's group (bool, int64, float64, duration, string, datetime); a name in no group panics with a message naming the key and the type |
| ConfigTags.NamesDisjoint | config.go:116-196 | no name is in two groups |
| ConfigTags.KindOfNames | config.go:116-196 | every name of a group, in any letter case, selects that group's kind |
| ConfigTags.KindOfUnknown | config.go:195-196 | a name outside every group panics |
| ConfigTags.LabelSelectsKind | config.go:135-193 | the type word a kind puts in its usage text is itself a name of that kind |
| ConfigTags.DefineFlag | config.go:116-196 | a flag is defined exactly when the type is known and, for a boolean, the default is valid. The flag's kind is the type's group and its usage word names that kind. Integer, float and duration flags default to zero for an empty tag and otherwise parse the tag. String and datetime flags take the tag's text. Booleans take the classified value |
| ConfigTags.UntypedFieldIsString | config.go:66-70 | a field whose tag names no type defines a string flag whose default is the default tag's text |
| ConfigTags.TagWithType | config.go:48-72 | "port,int" with no prefix gives ("port", "int") |
| ConfigTags.TagUnderPrefix | config.go:62-70 | "host" under the prefix "db" gives ("db.host", "string") |
| ConfigTags.TagExtraFieldIgnored | config.go:66-67 | "level,bool,ignored" gives ("level", "bool") |
| ConfigTags.TagWithoutName | config.go:56-60 | ",int" and "" give ("", "") |
| ConfigTags.BoolDefaultExamples | config.go:122-132 | "YES" reads true; "No" and "" read false; "maybe" panics |
| ConfigTags.KindExamples | config.go:116-196 | "Integer" selects int64; "uint" panics |
| ConfigTags.DefineFlagExample | config.go:171-187 | a duration flag with an empty default tag defaults to zero, with the usage word "duration" |

## Left out

- The `level` values. Insert and Delete return a level, and the model computes it as the source does. After a split, the levels of the moved node's descendants are not updated (structures/radix.go:206), so no property relates a level to a node's real depth.
- The benchmarks in structures/radix_test.go:200-236.
- Mutation in place. Go mutates nodes through pointers; the model returns new trees. No node is shared, so nothing observable differs.
- Bytes. A key is a Dafny string with one character per Go byte. The algorithm only compares elements and never decodes UTF-8.
- The split guard is modelled as the code has it (`index >= len(prefix)`). An index of 0 is not rejected; Insert never passes 0, because a child it enters shares at least one byte.
- The early `return "", ""` for an empty split result (config.go:52-54) is unreachable, because Split always returns at least one piece (ConfigTags.Split). It is not modelled as a branch.
- ConfigTags.Lower: lowers ASCII letters only. Go's `strings.ToLower` also maps non-ASCII letters, and a few of them lower-case to ASCII letters (U+0130 to `i`, U+212A to `k`). So a type name such as "İnt" selects int64 in Go but panics in the model.
- ConfigTags.KindOf: the type switch (config.go:116) compares the ASCII-lowered type name. Go's `strings.ToLower` also maps U+0130 to `i`, so a type name that reaches a known name only through that letter (for example "İnt", "İnteger", "strİng" or "datetİme") selects a kind in Go but panics in the model. No type name contains `k`, so U+212A does not matter here. KindOfNames and DefineFlag inherit this gap.
- ConfigTags.DefineFlag: `strconv.ParseInt`, `strconv.ParseFloat` and `time.ParseDuration` are foreign library calls, and floating point is out of scope. A non-empty numeric or duration default is recorded as "parsed from this text"; the parse and its panic on bad input are not modelled.
- The usage text built with `fmt.Sprintf` (config.go:108-112). Only the type word passed to it is modelled. Sprintf would also interpret any `%` in the usage tag.
- `ConvertKeyCase` is not part of this model. The flag name is a parameter of DefineFlag.
- The reflection in `ApplyFlags` and `ApplyConfigs`, `FlagSet` registration, and the go-pretty table printing. The model covers only the per-field string rules.
- `EmptyConfig` and `NewConfig` are not part of this model. EmptyConfig() is the parameter `empty` of CompositeSource.Get and CompositeSource.Has, and is taken to be non-nil.
- A source's Load and the I/O it performs (flags, environment, files). A source is modelled by what its Get and Has report once loaded, plus the error its Load returns; CompositeSource.Load records which sources' Load ran and does not change the sources.
- Config values. A `Config` is reduced to its IsSet flag and an opaque text; the typed accessors (StringVal, Int64Val and the others) are left out.
- app.go, logging.go, flag_source.go, env_source.go and grpc_interceptors.go are not part of this model.
- Concurrency. The tree and the cache are unsynchronised in the source, and the model is sequential.
- Presence. The tree marks absence with the zero value, so storing the zero value under a key cannot be told apart from deleting it; the model keeps this sentinel, through the `zero` parameter.

## Findings

| source | as written | input that shows it | evidently intended | confidence | as-written member | corrected member |
|---|---|---|---|---|---|---|
| structures/radix.go:160-192 | MatchLongest falls back to a node's own value only in its parent's loop (lines 183-185). The root has no parent, so once the key enters one of the root's children and nothing non-zero lies below, the result is zero even when the root holds a value | `Insert("", 5)`, `Insert("foo", 1)`, then `MatchLongest("fx")` returns 0 | the deepest node on the key's path holding a value, the root included: 5 | not executed | RadixFindings.RootValueLost | RadixFindings.MatchLongestFromRoot |
