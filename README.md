# ioBroker.my-muell: `processMyMuellData` in Dafny

The ioBroker adapter `my-muell` fetches a waste-collection calendar from the
MyMuell API. The calendar is a list of entries, each with a `day` (ISO date
text), `title`, `color`, `description` and `trash_name`. The adapter publishes
the following into its ioBroker namespace:

- the raw data, in `rawDataJson`;
- the next collection overall, in five `next.*` states;
- for every waste type `k`, a device `waste.<k>` and four leaf states under it
  (`.color`, `.name`, `.next_date`, `.next_desc`). Each leaf holds the
  corresponding field of the type's next collection.

Objects are created only if they do not exist yet. State values are always
overwritten and acknowledged.

The model has four modules:

- `JsOrder` (jsorder.dfy): JavaScript's `<`/`>` on strings, with its order
  properties. This is the comparison the adapter applies to `day`.
- `Schedule` (schedule.dfy): the single `forEach` pass.
  - `ReduceEntries` is the loop itself. It reassigns `nextElement` and updates
    `nextByType`. A JavaScript `Map` is modelled as `InsertionMap`: its keys in
    insertion order plus a map of values.
  - The loop is proved against a left-fold specification, `NextOf` and
    `ByTypeOf`.
  - Lemmas show what the fold computes: the first entry with the earliest day,
    overall and per waste type. They also show that the keys are the waste
    types in order of first appearance.
- `Publish` (publish.dfy): the store writes, as functions of the store before
  them (`WriteNext`, `WasteStates`, `WasteObjects`, `PublishedStates`,
  `PublishedObjects`). Lemmas cover:
  - the value written at every id;
  - that no other state is touched;
  - that existing object definitions are never altered;
  - that a second run leaves the definitions as they were.
- `MyMuell` (mymuell.dfy): the adapter as a class `Adapter` with the store's
  `states` and `objects` maps.
  - Its methods follow the source call by call: `setState`,
    `setObjectNotExistsAsync`, the status check on the API response, and
    `processMyMuellData` with its per-type loop.
  - Beside the class, the module-level function `ApiUrl` gives the URL
    string built at main.js:56.
  - Each method is proved to leave the store exactly as the `Publish`
    functions say.

## Model

| member | source | states |
|---|---|---|
| JsOrder.BeforeIrreflexive | main.js:162 | No day is strictly before itself, so an entry never replaces one with the same day. |
| JsOrder.BeforeAsymmetric | main.js:162 | The string order is asymmetric: if `a < b` then not `b < a`. |
| JsOrder.BeforeTransitive | main.js:170 | The string order is transitive, so the earliest day found so far stays the earliest after a replacement. |
| JsOrder.BeforeTotal | main.js:162 | Any two different day strings are ordered one way or the other, so "no earlier day" means "the smallest day". |
| JsOrder.BeforeThenNotBefore | main.js:170 | `a < b` and `b <= c` give `a < c`, which combines a replacement with a kept entry. |
| JsOrder.NotBeforeTransitive | main.js:162 | `a <= b` and `b <= c` give `a <= c`, which carries the minimum across kept entries. |
| JsOrder.Before | main.js:162-170 | JavaScript's `<` on strings, which `x.day > element.day` applies with its operands swapped. Its partner is `BeforeIsLexLess`. |
| JsOrder.BeforeIsLexLess | main.js:162-170 | `Before` holds exactly when the first string is a proper prefix of the second, or when the first position where they differ holds the smaller character in the first string. This is an independent reading of lexicographic order. |
| Schedule.InsertionMap.Set | main.js:171-175 | `Map.set` stores the value under its key and leaves every other key unchanged. It keeps key order when the key exists and appends the key otherwise, and it preserves distinct keys. |
| Schedule.StepNext | main.js:162-164 | One visit of the overall search: the visited entry becomes `nextElement` when there is none yet or when its day is strictly earlier. Its partner is `NextIsFirstMinimum`, about the fold over this step. |
| Schedule.StepByType | main.js:168-176 | One visit of the per-type search: an unseen type is appended with the visited entry, and a seen type's entry is replaced only by a strictly earlier day. Its partners are `ByTypeIsFirstMinimumOfType` and `ByTypeKeysInFirstSeenOrder`. |
| Schedule.NextOf | main.js:154-164 | `nextElement` after the `forEach` pass: `StepNext` folded over the entries from left to right, starting from none. Its partners are `NextOfNoneIffEmpty` and `NextIsFirstMinimum`. |
| Schedule.ByTypeOf | main.js:166-176 | The map built by the pass always has distinct keys that match its stored entries. |
| Schedule.ReduceEntries | main.js:154-177 | The loop computes the fold specification, and its own contract gives what the fold means. `nextElement` is absent exactly for empty input, and otherwise it is the first entry with the earliest day, stored under its own type. The keys of `nextByType` are exactly the input's waste types, distinct and in order of first appearance. Each key's value is an input entry of that type with no earlier day among that type's entries, and it is the first such entry with that day. |
| Schedule.ReductionSpec | main.js:154-177 | Everything the pass promises, stated on the fold. `nextElement` is absent exactly for empty input, and otherwise it is the first entry with the earliest day, stored under its own type. The keys are the input's waste types, distinct and in order of first appearance. Each key holds the first entry of its type with that type's earliest day. |
| Schedule.NextOfNoneIffEmpty | main.js:154-164 | No next entry exists exactly when the input is empty. |
| Schedule.NextIsFirstMinimum | main.js:154-164 | For non-empty input, the next entry is `s[i]`, where no entry has an earlier day and every entry before `i` has a strictly later day. Ties go to the first entry. |
| Schedule.FirstMinimumUnique | main.js:162-163 | Only one index is the first one with the earliest day, so the tie rule determines the result. |
| Schedule.OfTypeMembers | main.js:168 | An entry is among the entries of type `k` exactly when it is an input entry whose `trash_name` is `k`. |
| Schedule.OfTypeOfAbsentType | main.js:168 | A type that does not occur has no entries. |
| Schedule.ByTypeIsNextOfType | main.js:166-176 | The keys of `nextByType` are exactly the input's waste types. Each key's value is what the overall search returns when run on that type's entries alone. |
| Schedule.ByTypeIsFirstMinimumOfType | main.js:170-175 | For an input type `k`, the stored entry is an input entry of type `k` whose day no entry of type `k` undercuts. It is the first entry of type `k` that has that day. |
| Schedule.NextIsNextOfItsType | main.js:162-176 | For non-empty input, `nextByType[nextElement.trash_name]` is `nextElement`. |
| Schedule.ByTypeKeysInFirstSeenOrder | main.js:168-176 | The keys of `nextByType` are distinct and are exactly the input's waste types. Whenever key `a` precedes key `b`, every occurrence of `b` in the input comes after some occurrence of `a`. |
| Schedule.ExampleRun | main.js:158-177 | Worked run on a type-A entry, an earlier type-B entry, and a later type-A entry. The next entry is the type-B one, and the keys are A then B, each holding its earliest entry. |
| Publish.LeafIdInjective | main.js:199-253 | Leaf ids built from `'waste.' + key` and the four suffixes never coincide, whether for different types or for different leaves of one type. |
| Publish.DeviceIdInjective | main.js:199 | Different waste types get different device ids. |
| Publish.LeafObject | main.js:211-263 | The definition each leaf is created with: `Color` for the color leaf (role `level.color.rgb`), and `Name` for the name leaf (role `text`), the next-date leaf (role `date`) and the description leaf (role `text`). All four are read-only strings. |
| Publish.CreateIfAbsent | main.js:202-263 | `setObjectNotExistsAsync` on the object definitions: the map unchanged when the id is defined, otherwise the map with the definition added. Its partners are `EnsureTypeObjectsKeeps` and `WasteObjectsIdempotent`. |
| Publish.WriteNext | main.js:180-189 | The five `next.*` writes of the next entry's title, color, day, description and type, acknowledged, or no write at all when there is no next entry. Its partner is `WriteNextSpec`. |
| Publish.WriteLeaves | main.js:222-264 | One type's four leaf writes: color, title, day and description of its entry, acknowledged. Its partner is `WriteLeavesSpec`. |
| Publish.EnsureTypeObjects | main.js:202-263 | One type's five create-if-absent calls, in source order: the device named after the entry title, then the four leaves. Its partners are `EnsureTypeObjectsKeeps` and `EnsureTypeObjectsCreates`. |
| Publish.WasteStates | main.js:194-266 | The states after the per-type loop: `WriteLeaves` applied for each key in order. Its partner is `WasteStatesSpec`. |
| Publish.WasteObjects | main.js:194-266 | The object definitions after the per-type loop: `EnsureTypeObjects` applied for each key in order. Its partners are `WasteObjectsKeepExisting`, `WasteObjectsNoop` and `WasteObjectsIdempotent`. |
| Publish.PublishedStates | main.js:150-266 | The states after `processMyMuellData`: the archive write, then `WriteNext` of the next entry, then the per-type loop over the map's keys. Its partners are `PublishedArchive`, `PublishedNext`, `PublishedLeaves` and `PublishedFrame`. |
| Publish.PublishedObjects | main.js:194-266 | The object definitions after `processMyMuellData`: the per-type loop over the map's keys. Its partners are `PublishedObjectsSpec` and `PublishTwiceKeepsObjects`. |
| Publish.LeafIdIsNotFixed | main.js:152-188 | No leaf id is `rawDataJson` or one of the `next.*` ids. |
| Publish.FixedIdsAreNotLeafIds | main.js:152-188 | `rawDataJson` and the `next.*` ids are outside the leaf ids of any set of waste types. |
| Publish.WriteLeavesSpec | main.js:222-264 | One type's four writes set each leaf to its entry field, acknowledged. They add exactly that type's leaf ids and change no other state. |
| Publish.WasteStatesSpec | main.js:194-266 | After the per-type loop, every leaf of every visited type holds that type's entry field, acknowledged. The loop adds exactly the leaf ids and leaves every other state as it was. |
| Publish.LeafIdNotOfOtherType | main.js:199-253 | A leaf id of one type is none of another type's leaf ids. |
| Publish.LeafIdsMembers | main.js:199-253 | The leaf-id set of some types holds exactly the leaf ids of those types. |
| Publish.EnsureTypeObjectsKeeps | main.js:202-263 | One type's five create-if-absent calls add exactly that type's device and leaf ids and keep every existing definition. |
| Publish.EnsureTypeObjectsCreates | main.js:202-263 | A missing device gets the device definition named after the entry title, and a missing leaf gets its fixed definition. |
| Publish.WasteObjectsKeepExisting | main.js:194-266 | The per-type loop never alters an existing definition. It adds definitions for exactly the device and leaf ids of the visited types. |
| Publish.WasteObjectsNoop | main.js:194-266 | When every device and leaf id is already defined, the loop leaves the definitions exactly as they were. |
| Publish.WasteObjectsIdempotent | main.js:194-266 | Running the per-type loop again, even with other entries, leaves the definitions as the first run left them. |
| Publish.WasteObjectsDefinitions | main.js:194-266 | Assuming no device id clashes with a leaf id, every device the loop creates is named after its type's entry title, and every created leaf has its fixed definition. |
| Publish.DeviceDefinedAt | main.js:202-208 | Under the same assumption, a missing device of a visited type ends up defined as a device named after the type's entry title. |
| Publish.LeafDefinedAt | main.js:211-263 | Under the same assumption, a missing leaf of a visited type ends up with that leaf's fixed definition. |
| Publish.NewTypeIdsAreFresh | main.js:199-253 | Under the same assumption, a type that has not been visited yet owns none of the ids of the visited types. |
| Publish.WriteNextSpec | main.js:180-189 | With a next entry, the five `next.*` states hold its title, color, day, description and type, acknowledged, and nothing else changes. Without one, nothing is written. |
| Publish.PublishedArchive | main.js:150-152 | After processing, `rawDataJson` holds the serialised data, acknowledged, whatever the input. |
| Publish.PublishedNext | main.js:180-189 | After processing non-empty input, the five `next.*` states hold the title, color, day, description and type of the first entry with the earliest day, acknowledged. |
| Publish.PublishedLeaves | main.js:194-264 | After processing, every leaf of every waste type holds the corresponding field of that type's next entry, acknowledged. |
| Publish.PublishedFrame | main.js:150-266 | Processing writes only `rawDataJson`, the `next.*` states when the input is non-empty, and the leaves of the input's waste types. With empty input, only `rawDataJson` changes. |
| Publish.PublishedObjectsSpec | main.js:194-266 | Processing only adds object definitions, for exactly the device and leaf ids of the input's waste types. With empty input it adds none. |
| Publish.ObjectIdsMono | main.js:194-199 | Fewer waste types own fewer ids. |
| Publish.PublishTwiceKeepsObjects | main.js:194-266 | A second run on data with no new waste type (for example the same data) leaves every object definition exactly as the first run left it. |
| MyMuell.ApiUrl | main.js:56 | The `url` string: the MyMuell endpoint, `?r=dates&city_id=`, the city id, `&area_id=`, the area id. Its partner is `ApiUrlInjective`. |
| MyMuell.ApiUrlInjective | main.js:56 | The URL string built at main.js:56 determines both the city id and the area id, as long as the city id contains no `&`. |
| MyMuell.ArchiveOverwritesTest | main.js:150-152 | Writing `'test'` to `rawDataJson` and then the serialised data leaves the same states as the second write alone. |
| MyMuell.Adapter.SetState | main.js:152 | `setStateAsync` overwrites one state and touches no object definition. |
| MyMuell.Adapter.SetObjectNotExists | main.js:202-208 | `setObjectNotExistsAsync` defines the id only when it is undefined, and never changes an existing definition or any state. |
| MyMuell.Adapter.OnApiResponse | main.js:60-66 | Only status 200 leads to processing, which publishes as specified. Any other status leaves the store unchanged. |
| MyMuell.Adapter.ProcessMyMuellData | main.js:148-267 | The store ends exactly as `PublishedStates` and `PublishedObjects` describe: archive, `next.*` writes, then the per-type loop in key order. The `Publish` lemmas give the consequences. |
| MyMuell.Adapter.PublishNext | main.js:180-189 | The five `next.*` writes for the next entry, and no object change. |
| MyMuell.Adapter.PublishWasteTypes | main.js:192-266 | The `for…of` loop visits the map's keys in insertion order and leaves the store as the per-type writes and creations describe. |
| MyMuell.Adapter.PublishWasteType | main.js:195-264 | One turn of the per-type loop. It creates the device and the four leaves when absent, in source order, and writes the four leaf values. |

## Left out

- The HTTP request and its failure handling (axios, the `catch`) are not modelled. `OnApiResponse` receives the status and the decoded body as parameters.
- The request's `trophies=true` query parameter (main.js:58) is not modelled. `ApiUrl` is only the `url` string built at main.js:56.
- The adapter lifecycle is not modelled: the constructor's event wiring, `onReady`'s termination, `onUnload` and `onStateChange`. These only connect to the host process or log.
- The `isNaN` configuration checks are not modelled, because they only log.
- Logging is not modelled, because it has no effect on the store.
- `JSON.stringify` is not modelled. The serialised text is a function parameter `serialize`, so the model says only that `rawDataJson` holds `serialize(data)`.
- Asynchrony is not modelled. Every store call is sequential and always succeeds. The write of `'test'` to `rawDataJson` at main.js:150 is not awaited and races with the write at main.js:152. The model performs it first, and the second write overwrites it.
- Day strings are compared by Unicode code point. JavaScript compares UTF-16 code units, which differs only for characters outside the Basic Multilingual Plane and never for ISO dates.
- The entry's other API fields, and the `native` and `type` metadata of object definitions beyond those recorded in `ObjectDef`, are not modelled.
- The object definitions' `common.name`, `type`, `role`, `read` and `write` values are recorded as given in the source (including `Name` for the `next_date` leaf) but are not reasoned about.
- Publish.WasteObjectsDefinitions: assumes no waste type's device id equals another type's leaf id. A `trash_name` such as `a.color` next to `a` would break this, and then the first creation wins. The store-level lemmas (`WasteObjectsKeepExisting`, `PublishedObjectsSpec`, `PublishTwiceKeepsObjects`) hold without the assumption.
- `nextByType` is a JavaScript `Map` local to one call. It is modelled as a value that the loop reassigns, because nothing else holds a reference to it.
- Ids are relative to the adapter's namespace. The `my-muell.<instance>.` prefix that ioBroker adds is not modelled.
