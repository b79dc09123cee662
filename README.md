# Typer: inferring type declarations from sample JSON documents

This project models the `Typer` class of `src/typer.ts`. The class is fed
sample documents and accumulates, per *keypath*, which *type tags* were
seen there and which members of an object were present in every sample.
It can then rebuild an interface catalog and root type descriptors from
that table, and render them as TypeScript declarations, React PropTypes
or a Vue props validation object.

The model has four layers:

- **Type Observer**: `calculateType` and `addDocument`. These are the
  functions `Observer.Observe` and `Observer.Merge`. The class method
  `TyperEngine.Typer.CalculateType` performs the same walk in place, with
  loops, and is proved to compute `Observe`.
- **Override Layer**: `addRootField`, as `Override.WithRootField` and
  `TyperEngine.Typer.AddRootField`.
- **AST Builder**: `createAST`, `createASTForKeypath` and `interfaceName`.
  The functions `Schema.Pushes`, `Schema.Tree` and `Schema.Build` describe
  what is pushed and returned. The class methods push into the
  `interfaces` field in the source's order and are proved to produce
  exactly those sequences. `Resolution` proves that the catalog is
  *closed*: every interface refers only to interfaces pushed before it,
  and every reference of the root resolves.
- **Emitters**: `_filterNotNullables`, `createTypeScript`,
  `createPropTypes` and `createVueValidation`, as pure functions over a
  built catalog. `FilterNotNullables` keeps the source's loop and is
  proved to compute `Nullables.Collapse`.

The main representation choices:

- A JavaScript object used as a dictionary is an `OrderedMap`: a key
  sequence in `Object.keys` order, plus a map.
- The table is `map<string, Record>`, and keypaths are built exactly as
  the source builds them: `kp ? kp + '.' + key : key`, and `kp + '[]'`.
- The `camelcase` package is a function parameter `camel`.
- Every emitter returns the text that the source hands to `prettier.format`.

Interface names are not guaranteed to be distinct: the code relies on
`camelcase` for that, and it looks interfaces up with
`Array.prototype.find`. The model therefore does not assume distinct
names, and `Resolution.Find` returns the first interface with the
requested name, as `find` does.

## Model

| member | source | states |
|---|---|---|
| Documents.TagOf | src/typer.ts:40-47 | the tag is "array" exactly for arrays, "object" exactly for non-null objects, "null" exactly for null |
| Documents.FieldPath | src/typer.ts:55 | a member of the root is recorded under its bare key, any other member under a strictly longer keypath |
| Documents.ElementPath | src/typer.ts:48 | every element of an array is recorded under one keypath, two characters longer than the array's |
| Observer.KeysPresentSpec | src/typer.ts:50-53 | the `reduce` lists each key of the object once, exactly the object's keys, each marked true |
| Observer.PathsSpec | src/typer.ts:41-53 | a sample contributes: every own key as required for an object; exactly `["[]"]` for an array; an empty map for a primitive |
| Observer.FreshSpec | src/typer.ts:67-71 | the members added by the second loop are exactly those of the sample the stored map lacks, each listed once |
| Observer.MergeSpec | src/typer.ts:61-71 | after a merge the members are the union; a member is required exactly when it was required before and is present now, so no flag is ever raised |
| Observer.MergeValid | src/typer.ts:61-71 | merging keeps every member listed exactly once |
| Observer.Merge | src/typer.ts:61-71 | `Merge(p, q)` is the stored presence map after the two loops; it keeps every stored key, and its members and flags are those `Observer.MergeSpec` states |
| Observer.MergeRecord | src/typer.ts:59-75 | the record after observing a tag: a new tag stores the sample's paths, a known tag merges them; `ObserverLemmas.FirstObservation` and `ObserverLemmas.LaterObservation` state both cases |
| Observer.Observe | src/typer.ts:39-76 | `calculateType`: the sample's parts first, then its own tag at its keypath; `ObserverLemmas.ObserveExtends`, `ObserveKeepsValid` and `ObserveIdempotent` state its properties, and `TyperEngine.Typer.CalculateType` is proved to compute it |
| TyperEngine.MemberPaths | src/typer.ts:50-53 | the loop builds exactly the presence map of the object |
| TyperEngine.MergeInPlace | src/typer.ts:61-71 | the two loops together compute `Merge` of the stored and the new presence map |
| TyperEngine.LowerAbsent | src/typer.ts:62-66 | the first loop keeps the stored keys and order, and lowers exactly the stored members the sample lacks |
| TyperEngine.AddAbsent | src/typer.ts:67-71 | the second loop appends exactly the new members, as optional, after the stored ones, giving `Merge` |
| ObserverLemmas.ObserveOnlyLonger | src/typer.ts:39-76 | observing at a keypath never changes the record of a shorter keypath |
| ObserverLemmas.ObserveAtKeypath | src/typer.ts:59-75 | unless a root object has a key "", the keypath's new record is the merge of the record found before the sample's parts were observed |
| ObserverLemmas.FirstObservation | src/typer.ts:72-75 | unless a root object has a key "", the first time a tag is seen at a keypath it is appended, and the sample's own paths are stored: all required, `["[]"]` for arrays, empty for primitives |
| ObserverLemmas.LaterObservation | src/typer.ts:59-71 | unless a root object has a key "", a tag seen again keeps the tag order, and its stored members become the union, each required only if it was required and is present in the sample |
| ObserverLemmas.ObserveKeepsValid | src/typer.ts:39-76 | after observing a sample, every record still lists each tag and member once |
| ObserverLemmas.ObserveExtends | src/typer.ts:39-76 | observing never forgets a keypath, tag or member, never reorders them, and never turns a flag from false to true |
| ObserverLemmas.ObserveAbsorbs | src/typer.ts:39-76 | after observing a sample, every merge that observing it again would perform is a no-op |
| ObserverLemmas.AbsorbedUnchanged | src/typer.ts:59-75 | observing a sample whose merges are all no-ops leaves the table unchanged |
| ObserverLemmas.ObserveIdempotent | src/typer.ts:83-85 | adding the same document twice gives the same table as adding it once |
| Override.SingleTag | src/typer.ts:89 | the reset record lists exactly the one given tag, with an empty presence map |
| Override.ForceRootMember | src/typer.ts:88 | the root record with the object tag's member `key` set to the flag; `Override.RootMemberForced` and `Override.RootFieldForced` state what changes and what does not |
| Override.WithRootField | src/typer.ts:87-90 | defined exactly when the root was observed as an object; then the field's keypath holds the single tag, and every other keypath except the root is unchanged |
| Override.RootFieldForced | src/typer.ts:88 | the root record keeps its tags, their order and every tag other than "object" |
| Override.RootMemberForced | src/typer.ts:88 | the root member gets the given flag; every other member keeps its flag, and a new member is appended last |
| Override.RootFieldKeepsValid | src/typer.ts:87-90 | the override keeps every tag and member listed once |
| Schema.Namer.Name | src/typer.ts:78-81 | every interface name starts with "I" |
| Schema.ReplaceBrackets | src/typer.ts:79 | every `[]` of a keypath replaced by `Value`; `SchemaLemmas.ReplaceBracketsClean` and `SchemaLemmas.ReplaceBracketsNone` state that none is left and that a keypath without one is kept |
| Schema.Tree | src/typer.ts:121-137 | the descriptors `createASTForKeypath` returns, one per tag; `SchemaLemmas.TreeShape` states their shapes |
| Schema.Pushes | src/typer.ts:102-138 | the interfaces `createASTForKeypath` pushes, in push order; `Resolution.BuiltClosed` states that each refers only to interfaces pushed before it |
| Schema.Build | src/typer.ts:92-100 | `createAST`: the pushes and descriptors of the root keypath from an empty catalog; `Resolution.BuildResolves` states that the catalog is closed and the root resolves |
| SchemaLemmas.TreeShape | src/typer.ts:121-137 | one descriptor per tag, in first-observed order: a reference to the keypath's interface for "object", the element descriptors for "array", the bare tag otherwise |
| SchemaLemmas.Unobserved | src/typer.ts:103 | a keypath never observed (the elements of an always-empty array) gives no descriptor and pushes no interface |
| SchemaLemmas.ReplaceBracketsClean | src/typer.ts:79 | after the global replacement no `[]` is left |
| SchemaLemmas.ReplaceBracketsNone | src/typer.ts:79 | a keypath without `[]` is left as it is |
| SchemaLemmas.EmptyKeyLoops | src/typer.ts:54-55 | the document `{"": 0}` records "" as a member of the root keypath, so it violates `NoRootSelfLoop` |
| Resolution.BuiltClosed | src/typer.ts:102-138 | the interfaces one keypath pushes refer only to interfaces pushed before them, and its descriptors refer only to interfaces it pushed |
| Resolution.ObjectPushesClosed | src/typer.ts:107-117 | the members' interfaces are pushed before the object's own, which is among those pushed |
| Resolution.BuildResolves | src/typer.ts:92-100 | in a built catalog children precede parents, and every reference of the root resolves to a listed interface |
| Resolution.Find | src/typer.ts:220 | the lookup returns the first interface of that name, or the length when there is none |
| Resolution.FoundClosed | src/typer.ts:220-221 | an interface found by name lies before the bound, and its fields refer only to interfaces before it |
| Nullables.NonNullablesMembers | src/typer.ts:180-184 | a variant is kept exactly when it is present and is neither null nor undefined |
| Nullables.NonNullables | src/typer.ts:180-184 | the `filter` of null and undefined variants; never longer than its input, and `Nullables.NonNullablesMembers` and `NonNullablesAppend` state what it keeps and in which order |
| Nullables.Collapse | src/typer.ts:178-189 | what `_filterNotNullables` returns; `Nullables.CollapseSpec` states its variants and flag |
| Nullables.NonNullablesAppend | src/typer.ts:180-184 | filtering distributes over concatenation, so the kept variants keep their order |
| Nullables.NonNullablesKeepAll | src/typer.ts:180-184 | nothing is dropped exactly when no variant is nullable, and then the variants are unchanged |
| Nullables.CollapseTurn | src/typer.ts:180-183 | one more variant is kept exactly when it is not nullable, and the flag survives it exactly then |
| Nullables.CollapseSpec | src/typer.ts:178-189 | the name is kept, no nullable variant is left, the flag stays true exactly when it was true and nothing was dropped, and a false flag stays false |
| Text.UpperFirst | src/typer.ts:80 | the length is kept, the first character is upper-cased, and the rest is unchanged |
| Text.JsonString | src/typer.ts:273 | `JSON.stringify` of a string: quoted at both ends; `Text.JsonStringRoundTrip` and `Text.JsonStringInjective` state that nothing is lost |
| Text.JsonStringRoundTrip | src/typer.ts:273 | `JSON.stringify` of a string has a left inverse: removing the quotes and undoing the escapes gives the string back |
| Text.JsonStringInjective | src/typer.ts:273 | `JSON.stringify` is injective on strings: two strings give the same literal exactly when they are equal |
| TypeScript.UnionAny | src/typer.ts:142-143 | unless a variant is itself named `any`, a union renders as `any` exactly when it has no variant |
| TypeScript.Values | src/typer.ts:143 | one rendering per variant, in order |
| TypeScript.FieldCode | src/typer.ts:163-166 | one property line; `TypeScript.OptionalMarker` states where the `?` goes |
| TypeScript.InterfaceCode | src/typer.ts:157-170 | one `interface` block of the catalog, its properties joined by `;` and a line break |
| TypeScript.Declarations | src/typer.ts:156-174 | the interface blocks joined by line breaks, then the export line; `TypeScript.ExportLine` states how it ends |
| TypeScript.OptionalMarker | src/typer.ts:164 | a property carries `?` after its name exactly when it is not required |
| TypeScript.ExportLine | src/typer.ts:173 | the text ends with the export of the root type, which is `any` when the root has no variant |
| TypeScript.RenderingForms | src/typer.ts:144-155 | for tags and interface names that are single words, a descriptor renders as `Array<...>` exactly when it is an array, and as `{ (): any }` exactly when it is the function tag |
| PropTypes.Value | src/typer.ts:199-236 | a non-root rendering is never empty; a root object renders as "" exactly when its interface has no fields |
| PropTypes.Union | src/typer.ts:193-198 | a variant list never renders as "" |
| PropTypes.Code | src/typer.ts:237-240 | the right-hand side is empty exactly when the root is a single object with no fields |
| PropTypes.DeclarationEmpty | src/typer.ts:242-244 | the result is "" exactly when the root is a single object with no fields, and otherwise the assignment to `initialCode` |
| PropTypes.FieldRequired | src/typer.ts:227-230 | `.isRequired` is appended exactly when the filtered field is still required |
| PropTypes.FieldCode | src/typer.ts:226-230 | one property of a shape, from the filtered field; `PropTypes.FieldRequired` states when it is marked `.isRequired` |
| PropTypes.Declaration | src/typer.ts:242-244 | the assignment to `initialCode`, or ""; `PropTypes.DeclarationEmpty` states when it is empty |
| PropTypes.NotOneOf | src/typer.ts:199-236 | no single descriptor renders as a `PropTypes.oneOf...` |
| PropTypes.UnionForm | src/typer.ts:193-198 | a variant list renders as `PropTypes.oneOfType([` ... exactly when it does not have exactly one variant |
| PropTypes.ArrayEmptyForm | src/typer.ts:200-207 | an array renders as the bare `PropTypes.array` exactly when it has no variant |
| PropTypes.ArrayUnionForm | src/typer.ts:200-207 | an array renders as `PropTypes.arrayOf(PropTypes.oneOfType([` ... exactly when it has two or more variants |
| PropTypes.NonNullablesRefs | src/typer.ts:227 | filtering a field adds no interface reference |
| VueValidation.Code | src/typer.ts:248-253 | the object is "" exactly when the root is not a single object descriptor |
| VueValidation.Single | src/typer.ts:255-262 | one variant, with or without the required wrapper; `VueValidation.TypeName` and `VueValidation.Marked` state its form |
| VueValidation.Value | src/typer.ts:264-269 | one variant alone or a list of them; `VueValidation.ListForm` states when a list is written and how its entries are marked |
| VueValidation.FieldCode | src/typer.ts:271-277 | one property: the quoted key, then the filtered variants; `VueValidation.FieldFlag` and `VueValidation.FieldKey` state its mark and its key |
| VueValidation.TypeName | src/typer.ts:255-257 | a variant is written as its type with the first character upper-cased: same length, same rest, first character never a lower-case letter and otherwise the type's |
| VueValidation.Marked | src/typer.ts:255-262 | for a type that is a single word, the variant is wrapped as `{ type: ..., required: true }` exactly when the flag is set |
| VueValidation.ListForm | src/typer.ts:264-269 | the value is written as a `[...]` list exactly when the number of variants is not one, `[]` when there are none, and each entry of the list is marked required exactly when the flag is set |
| VueValidation.FieldFlag | src/typer.ts:271-277 | for variants whose types are single words, a property is marked `required: true` exactly when the field is required and has no null or undefined variant: its one remaining variant, or the last entry of its list, carries the mark; with no variant left it is `[]` |
| VueValidation.FieldKey | src/typer.ts:273 | each property begins with its key, `JSON.stringify` of the field name, and the name is recovered from that key |
| TyperEngine.Typer.constructor | src/typer.ts:35-37 | a new typer has an empty table |
| TyperEngine.Typer.CalculateType | src/typer.ts:39-76 | the in-place walk leaves exactly `Observe` of the old table, which stays valid |
| TyperEngine.Typer.CalculateElements | src/typer.ts:48 | the elements are observed in order under the element keypath |
| TyperEngine.Typer.CalculateMembers | src/typer.ts:54-56 | the members are observed in order, each under its own keypath |
| TyperEngine.Typer.Store | src/typer.ts:59-75 | only the keypath's record changes, and it becomes the merge of the old one |
| TyperEngine.Typer.AddDocument | src/typer.ts:83-85 | a document is observed at the root keypath |
| TyperEngine.Typer.AddRootField | src/typer.ts:87-90 | succeeds exactly when the root was observed as an object, and then leaves `WithRootField`; otherwise nothing changes |
| TyperEngine.Typer.CreateASTForKeypath | src/typer.ts:102-138 | the interfaces pushed are `Pushes` and the descriptors returned are `Tree` |
| TyperEngine.Typer.InterfaceLoop | src/typer.ts:105-119 | only an "object" tag pushes, and only through its members' interfaces and then its own |
| TyperEngine.Typer.PushInterface | src/typer.ts:107-117 | the object's interface is pushed after all interfaces of its members |
| TyperEngine.Typer.FieldLoop | src/typer.ts:110-116 | one field per member, in order, with the member's stored flag and descriptors |
| TyperEngine.Typer.DescriptorLoop | src/typer.ts:121-137 | one descriptor per tag, in order, plus the pushes of the element keypath for "array" |
| TyperEngine.Typer.ElementValues | src/typer.ts:131-133 | the `reduce` concatenates the element descriptors once per key of the array presence map |
| TyperEngine.Typer.CreateAST | src/typer.ts:92-100 | keeps the table, sets the prefix, starts from an empty catalog, returns `Build` and leaves its interfaces in the field; the result is closed, with every root reference resolved |
| TyperEngine.Typer.CreateTypeScript | src/typer.ts:140-176 | keeps the table, leaves the requested prefix and the freshly built catalog in the fields, and returns the declarations of that catalog under the prefix |
| TyperEngine.Typer.CreatePropTypes | src/typer.ts:191-245 | keeps the table, leaves the prefix "" and the catalog built with it in the fields, and returns the PropTypes declaration of that catalog |
| TyperEngine.Typer.CreateVueValidation | src/typer.ts:247-282 | keeps the table, leaves the prefix "" and the catalog built with it in the fields, and returns the Vue validation object of that catalog |
| TyperEngine.Typer.FilterNotNullables | src/typer.ts:178-189 | the loop returns exactly the filtered variants and flag of `Collapse` |

## Left out

- `prettier.format` is not modelled. Every emitter returns the text before formatting. `createVueValidation`'s `const foo = ` prefix exists only for formatting, and its `options` parameter, are left out for the same reason.
- The `camelcase` package is not modelled. It is the parameter `camel`, so nothing is claimed about its output beyond what `interfaceName` adds around it.
- `TyperEngine.Typer.CreateASTForKeypath` and the other builders require `NoRootSelfLoop`, because for a root object with a member named "" the source's `createASTForKeypath('')` calls itself with the same keypath (lines 105-118), and the recursion goes on until the stack overflows with a `RangeError`. `SchemaLemmas.EmptyKeyLoops` exhibits such a document. The code gives no way to tell which keypath that member was meant to have, so the model has no corrected builder for it.
- `TypeScript.RenderingForms`, `VueValidation.Marked`, `VueValidation.ListForm` and `VueValidation.FieldFlag` hold for tags and interface names that are single words. Tags recorded by `calculateType` come from `typeof` and are single words, but a tag given to `addRootField` (lines 87-89, `TyperEngine.Typer.AddRootField`, `Override.WithRootField`) may be any string, such as `"Foo | Bar"` or `"string[]"`, and these lemmas then say nothing about its rendering. Interface names are single words when `camelcase` and the prefix yield identifiers.
- `toUpperCase` is modelled on ASCII letters only. Other characters are kept unchanged, whereas JavaScript upper-cases letters outside ASCII as well.
- `JSON.stringify` escapes are modelled on `char` values. UTF-16 surrogate handling is out of scope.
- `Object.keys` is modelled as insertion order. JavaScript lists integer-like keys first, in numeric order, and that ordering is not modelled.
- Inherited keys that a plain object answers through its prototype, such as `toString` or `__proto__`, are not modelled. The model reads a missing member, tag or flag as absent or false.
- Sample documents are trees with unique member keys per object, as `JSON.parse` produces. Numbers are `real`, and their value is never inspected.
- `interfaces` and `prefix` are `undefined` in the source until the first build. The model starts them as an empty catalog and "".
- The `TypeError` that `addRootField` throws when the root was never observed as an object is modelled as the result `false`, with the table unchanged.
- Uniqueness of interface names is not modelled, because it depends on `camelcase`. Lookups return the first match, as `find` does.
- The demo at the end of the file, `preview-render.tsx` and `renderer.ts` are not part of this model.
