# NSwag: enum deduplication and the original-casing property-name generator

This project models, in Dafny, two pieces of sequential logic that NSwag runs before it generates client code. It proves properties of both.

1. **Case-insensitive enum deduplication over an OpenAPI document** (`src/NSwag.CodeGeneration/EnumExtensions.cs`).
   - The entry point visits every component schema. It then visits the actual schema of every operation parameter, and every request-body and response media-type schema.
   - From each schema it descends through properties, `Item`, `Items` and `AdditionalPropertiesSchema`.
   - One shared `visited` set of schema objects makes the walk end on cyclic graphs.
   - Some schemas have an `Enumeration` with more than one member, all of them strings. For each such schema, the walk keeps the first member of every class of values equal under ordinal case-insensitive comparison. It also keeps the `EnumerationNames` entry at the same index, when the names list reaches that index.
   - Both lists are rewritten in place, and only when something was removed.
2. **`OriginalCSharpPropertyNameGenerator.Generate`** (`src/NSwag.CodeGeneration.CSharp/OriginalCSharpPropertyNameGenerator.cs`).
   - A property name is cleaned by two fixed chains of single-character `Replace` calls.
   - Each chain is guarded by an `IndexOfAny` check.

## Modules

- `wrappers.dfy` has module `Wrappers` with the `Option` type. `None` stands for a C# `null`.
- `property_name_generator.dfy` has module `PropertyNameGenerator`. The generator is pure: it is a set of functions on `seq<char>`.
  - `IndexOfAny` and `Replace` model the .NET string operations.
  - `FirstPass` and `SecondPass` are the two replacement chains. `Generate` combines them with both guards.
  - `Substitute` and `SubstituteAll` form an independent reference: a single per-character table.
  - The lemmas show that `Generate` equals `SubstituteAll`. From that they derive the removal of reserved characters, the identity on clean names and idempotence.
- `enum_deduplication.dfy` has module `EnumDeduplication`, the deduplication of one schema stated on values.
  - `Deduplicated` is the effect on an `EnumState`: the pair of nullable lists.
  - `Survivors` gives the kept indices. `Pick` and `PickNames` give the kept values and names.
  - The lemmas cover: when the lists change, first occurrences, order and casing, no duplicates left, the names and idempotence.
- `enum_extensions.dfy` has module `EnumExtensions`, the imperative walk.
  - `Schema` is a class whose enum lists are fields that the walk rewrites.
  - `RemoveDuplicatesIn` rewrites a schema's lists with `Clear`-and-refill loops. It is proved to produce `Deduplicated` of the old state.
  - `CollectUnique` is the loop that collects `unique` and `uniqueNames`.
  - `Visit` is the private recursive walk. `RemoveCaseInsensitiveEnumDuplicates` is the public entry point.
  - The schema links (`$ref`, properties, `Item`, `Items`, `AdditionalPropertiesSchema`) are read, never written. A ghost map `graph: Graph` records them. The predicate `Shaped` ties that map to the heap, and the walk's contracts are stated over it:
    - termination, measured by the unvisited schemas of the graph;
    - each schema entered once, via the ghost log `entered`, which is `Distinct` and lists exactly the newly visited schemas;
    - only schemas inside any closed set `R` holding the start are entered;
    - `Evolved`: a schema's lists are set to `Deduplicated` of their old value exactly when it is the actual schema of an entered schema, and every other schema keeps them (an entered schema whose lists are already clean keeps them too, since `Deduplicated` is then the identity);
    - `Finished`: everything an entered schema leads to has been entered.

Two details of the code are easy to read past. The model follows the code in both:

- **Second guard of the generator.** One might expect the second guard to test the original name. At `OriginalCSharpPropertyNameGenerator.cs:52` it tests the first-pass result, because `name` is reassigned at :36. `Generate` tests the first-pass result. `SecondGuardAgreesWithOriginal` proves that both choices decide the same for every name, because the first chain neither adds nor removes a second-pass character.
- **Visited check of the walk.** One might expect the walk to resolve `ActualSchema` before its visited check. At `EnumExtensions.cs:57` the visited check runs on the schema as reached, and the reference is followed only at :62. `Visit` does the same, so a reference and its target are separate visited entries, and the target's lists can be deduplicated twice. `ComposeEvolved` absorbs the second time through `DeduplicatedIdempotent`.

## Model

| member | source | states |
|---|---|---|
| PropertyNameGenerator.IndexOfAny | src/NSwag.CodeGeneration.CSharp/OriginalCSharpPropertyNameGenerator.cs:34 | The result is -1 exactly when no character of the set occurs. Otherwise it is the first position holding one of them. |
| PropertyNameGenerator.Replace | src/NSwag.CodeGeneration.CSharp/OriginalCSharpPropertyNameGenerator.cs:36-59 | No contract of its own. It is the ordinal one-character `string.Replace` that every call of both chains uses. `ReplaceStep`, `ReplaceKeeps` and `ReplaceAppend` give its meaning. |
| PropertyNameGenerator.FirstPass | src/NSwag.CodeGeneration.CSharp/OriginalCSharpPropertyNameGenerator.cs:36-49 | No contract of its own. The body is the fourteen calls of the first chain, in source order. `FirstPassChar` and `FirstPassIsPerCharacter` give its meaning. |
| PropertyNameGenerator.SecondPass | src/NSwag.CodeGeneration.CSharp/OriginalCSharpPropertyNameGenerator.cs:54-59 | No contract of its own. The body is the five calls of the second chain, in source order. `SecondPassChar` and `PassesAreSubstitution` give its meaning. |
| PropertyNameGenerator.Generate | src/NSwag.CodeGeneration.CSharp/OriginalCSharpPropertyNameGenerator.cs:30-63 | No contract of its own. The body is the two chains, each behind its `IndexOfAny` guard, with the second guard testing the first-pass result. `GenerateIsSubstitution` gives its meaning, and `GenerateRemovesReserved`, `GenerateKeepsCleanName` and `GenerateIdempotent` build on it. |
| PropertyNameGenerator.ReplaceStep | src/NSwag.CodeGeneration.CSharp/OriginalCSharpPropertyNameGenerator.cs:36-49 | Replacing a character that does not occur is the identity. A one-character string equal to the pattern becomes the replacement text. |
| PropertyNameGenerator.ReplaceKeeps | src/NSwag.CodeGeneration.CSharp/OriginalCSharpPropertyNameGenerator.cs:36-59 | A replacement neither adds nor removes a character other than its pattern and the characters of its replacement text. |
| PropertyNameGenerator.ReplaceAppend | src/NSwag.CodeGeneration.CSharp/OriginalCSharpPropertyNameGenerator.cs:36-59 | A single-character replacement distributes over concatenation, so inserted text is never scanned again. |
| PropertyNameGenerator.FirstPassChar | src/NSwag.CodeGeneration.CSharp/OriginalCSharpPropertyNameGenerator.cs:36-49 | The first chain removes `"` `'` `@` `?` `!` `$` `[` `]` `)`. It maps `(` `.` `=` and the pipe character to `_` and `+` to `plus`, and keeps every other character. |
| PropertyNameGenerator.SecondPassChar | src/NSwag.CodeGeneration.CSharp/OriginalCSharpPropertyNameGenerator.cs:54-59 | The second chain maps `*` to `Star`, `:` `-` `#` to `_` and `&` to `And`, and keeps every other character. |
| PropertyNameGenerator.FirstPassIsPerCharacter | src/NSwag.CodeGeneration.CSharp/OriginalCSharpPropertyNameGenerator.cs:36-49 | The fourteen chained replacements equal one left-to-right per-character map. |
| PropertyNameGenerator.FirstPassIdentity | src/NSwag.CodeGeneration.CSharp/OriginalCSharpPropertyNameGenerator.cs:34-50 | A name without a first-pass character goes through the first chain unchanged. |
| PropertyNameGenerator.SecondPassIdentity | src/NSwag.CodeGeneration.CSharp/OriginalCSharpPropertyNameGenerator.cs:52-60 | A name without a second-pass character goes through the second chain unchanged. |
| PropertyNameGenerator.PassesChar | src/NSwag.CodeGeneration.CSharp/OriginalCSharpPropertyNameGenerator.cs:36-59 | Both chains on one character give that character's entry in the single substitution table. |
| PropertyNameGenerator.PassesAreSubstitution | src/NSwag.CodeGeneration.CSharp/OriginalCSharpPropertyNameGenerator.cs:36-59 | The second chain after the first equals `SubstituteAll`, the per-character table applied left to right. |
| PropertyNameGenerator.GuardsDoNotMatter | src/NSwag.CodeGeneration.CSharp/OriginalCSharpPropertyNameGenerator.cs:34-60 | The result with the two `IndexOfAny` fast paths equals running both chains unconditionally. |
| PropertyNameGenerator.GenerateIsSubstitution | src/NSwag.CodeGeneration.CSharp/OriginalCSharpPropertyNameGenerator.cs:30-63 | `Generate` is the single per-character substitution: nine characters removed, seven become `_`, `+` becomes `plus`, `*` becomes `Star`, `&` becomes `And`, and every other character is copied, so casing is never altered. |
| PropertyNameGenerator.SubstituteAllNoReserved | src/NSwag.CodeGeneration.CSharp/OriginalCSharpPropertyNameGenerator.cs:11-18 | The substitution output holds none of the reserved characters. |
| PropertyNameGenerator.SubstituteAllIdentity | src/NSwag.CodeGeneration.CSharp/OriginalCSharpPropertyNameGenerator.cs:7 | The substitution leaves a name without reserved characters as it is. |
| PropertyNameGenerator.GenerateRemovesReserved | src/NSwag.CodeGeneration.CSharp/OriginalCSharpPropertyNameGenerator.cs:30-63 | The generated name contains none of the fourteen first-pass characters (`"'@?!$[]().=+` and the pipe) and none of `*:-#&`. |
| PropertyNameGenerator.GenerateKeepsCleanName | src/NSwag.CodeGeneration.CSharp/OriginalCSharpPropertyNameGenerator.cs:34-62 | A name containing no reserved character is returned unchanged. |
| PropertyNameGenerator.GenerateIdempotent | src/NSwag.CodeGeneration.CSharp/OriginalCSharpPropertyNameGenerator.cs:30-63 | Generating from a generated name gives the same name. |
| PropertyNameGenerator.FirstPassKeepsSecondPassChars | src/NSwag.CodeGeneration.CSharp/OriginalCSharpPropertyNameGenerator.cs:36-49 | The first chain's output holds a second-pass character exactly when its input does. |
| PropertyNameGenerator.SecondGuardAgreesWithOriginal | src/NSwag.CodeGeneration.CSharp/OriginalCSharpPropertyNameGenerator.cs:34-52 | The second guard decides the same on the first-pass result as it would on the original name, in both directions. |
| PropertyNameGenerator.ReservedChars | src/NSwag.CodeGeneration.CSharp/OriginalCSharpPropertyNameGenerator.cs:11-18 | A character is reserved exactly when it is in `FirstPassChars` or in `SecondPassChars`. |
| PropertyNameGenerator.ExampleDot | src/NSwag.CodeGeneration.CSharp/OriginalCSharpPropertyNameGenerator.cs:46 | `Generate` turns `foo.bar` into `foo_bar`. |
| PropertyNameGenerator.ExamplePlus | src/NSwag.CodeGeneration.CSharp/OriginalCSharpPropertyNameGenerator.cs:48 | `Generate` turns `a+b` into `aplusb`. |
| PropertyNameGenerator.ExampleHyphen | src/NSwag.CodeGeneration.CSharp/OriginalCSharpPropertyNameGenerator.cs:57 | `Generate` turns `x-y` into `x_y`. |
| PropertyNameGenerator.ExampleStar | src/NSwag.CodeGeneration.CSharp/OriginalCSharpPropertyNameGenerator.cs:55 | `Generate` turns `*flag` into `Starflag`. |
| PropertyNameGenerator.ExampleAmpersand | src/NSwag.CodeGeneration.CSharp/OriginalCSharpPropertyNameGenerator.cs:59 | `Generate` turns `a&b` into `aAndb`. |
| EnumDeduplication.SameIgnoringCaseIsEquivalence | src/NSwag.CodeGeneration/EnumExtensions.cs:67 | The case-insensitive comparer is reflexive, symmetric and transitive. |
| EnumDeduplication.Survivors | src/NSwag.CodeGeneration/EnumExtensions.cs:68-79 | Among the first `n` values, at most `n` indices are kept, each below `n`. |
| EnumDeduplication.SurvivorsExact | src/NSwag.CodeGeneration/EnumExtensions.cs:68-73 | An index is kept exactly when no earlier value is equal to it ignoring case. |
| EnumDeduplication.SurvivorsIncreasing | src/NSwag.CodeGeneration/EnumExtensions.cs:68-73 | Kept indices are strictly increasing, so the original relative order is kept. |
| EnumDeduplication.FirstAt | src/NSwag.CodeGeneration/EnumExtensions.cs:71 | The first position, from a start index, holding a value equal to a given one ignoring case. |
| EnumDeduplication.FirstAtIsFirst | src/NSwag.CodeGeneration/EnumExtensions.cs:68-73 | Every value is equal, ignoring case, to a first occurrence at or before it. |
| EnumDeduplication.SurvivorsStep | src/NSwag.CodeGeneration/EnumExtensions.cs:68-79 | One more loop step adds the value exactly when it is a first occurrence. It adds its name exactly when, in addition, the names list reaches that index. |
| EnumDeduplication.SurvivorsCount | src/NSwag.CodeGeneration/EnumExtensions.cs:81 | Every value is kept exactly when every value is a first occurrence. |
| EnumDeduplication.SurvivorsAll | src/NSwag.CodeGeneration/EnumExtensions.cs:81 | When nothing is removed, the kept indices are all indices in order. |
| EnumDeduplication.FirstEverywhereIffNoDuplicate | src/NSwag.CodeGeneration/EnumExtensions.cs:68-81 | Every value is a first occurrence exactly when no two values are equal ignoring case. |
| EnumDeduplication.SomethingRemovedIff | src/NSwag.CodeGeneration/EnumExtensions.cs:81 | `unique.Count != Enumeration.Count` exactly when two values are equal ignoring case. |
| EnumDeduplication.PickedAreDistinct | src/NSwag.CodeGeneration/EnumExtensions.cs:68-79 | No two kept values are equal ignoring case. |
| EnumDeduplication.PickNamesPrefix | src/NSwag.CodeGeneration/EnumExtensions.cs:74-76 | The kept names are the names at the kept indices that the names list reaches. Those indices form a prefix of the kept indices, and the kept names are no more than the kept values. |
| EnumDeduplication.Deduplicated | src/NSwag.CodeGeneration/EnumExtensions.cs:63-97 | Neither list switches between null and non-null. |
| EnumDeduplication.DeduplicatedChangesIff | src/NSwag.CodeGeneration/EnumExtensions.cs:63-97 | The lists change exactly when the enumeration is non-null, has more than one member, all of them strings, and two of them are equal ignoring case. A null enumeration, one member, a non-string member or no duplicate leaves both lists unchanged. |
| EnumDeduplication.DeduplicatedKeepsFirstOccurrences | src/NSwag.CodeGeneration/EnumExtensions.cs:68-87 | The new enumeration is the subsequence of first occurrences, in original order and original casing. Every original value equals one of them ignoring case. |
| EnumDeduplication.DeduplicatedNoDuplicates | src/NSwag.CodeGeneration/EnumExtensions.cs:63-79 | After the rewrite of an eligible enumeration, every member is a string and no two are equal ignoring case. |
| EnumDeduplication.DeduplicatedNames | src/NSwag.CodeGeneration/EnumExtensions.cs:74-96 | When values were removed, a null names list stays null. Otherwise it becomes the names at kept indices below its old length, each beside its value, and it is no longer than the new values list. |
| EnumDeduplication.ExampleStatuses | src/NSwag.CodeGeneration/EnumExtensions.cs:63-97 | `["Active", "active", "INACTIVE", "inactive"]` named `["A", "a", "I", "i"]` becomes `["Active", "INACTIVE"]` named `["A", "I"]`. |
| EnumDeduplication.DeduplicatedIdempotent | src/NSwag.CodeGeneration/EnumExtensions.cs:57-97 | Deduplicating an already deduplicated schema changes nothing. |
| EnumExtensions.AnyEqualIgnoreCase | src/NSwag.CodeGeneration/EnumExtensions.cs:71 | The result is true exactly when some collected value equals the candidate ignoring case. |
| EnumExtensions.SeenBeforeIffNotFirst | src/NSwag.CodeGeneration/EnumExtensions.cs:71 | The `Any` test on the values collected so far is true exactly when the current value is not a first occurrence. |
| EnumExtensions.CollectUnique | src/NSwag.CodeGeneration/EnumExtensions.cs:65-79 | The loop leaves in `unique` the first occurrences in order. It leaves in `uniqueNames` the names at those indices that the names list reaches, and nothing for a null names list. |
| EnumExtensions.RemoveDuplicatesIn | src/NSwag.CodeGeneration/EnumExtensions.cs:63-97 | The schema's two lists become `Deduplicated` of their old value, through the `Clear` and refill loops. |
| EnumExtensions.ClosedIsFinished | src/NSwag.CodeGeneration/EnumExtensions.cs:100-121 | In a graph closed under its links, every schema's descendants lie in the graph, so the whole graph qualifies as the walk's bound `R`. |
| EnumExtensions.PathStaysInside | src/NSwag.CodeGeneration/EnumExtensions.cs:100-121 | A set closed under the walk's descent holds every schema the walk can reach from any of its members. |
| EnumExtensions.ComposeEvolved | src/NSwag.CodeGeneration/EnumExtensions.cs:57-62 | Two stretches of the walk compose into one. A target reached through a reference and directly is deduplicated twice, which equals once. |
| EnumExtensions.Visit | src/NSwag.CodeGeneration/EnumExtensions.cs:55-122 | See below. |
| EnumExtensions.VisitChildren | src/NSwag.CodeGeneration/EnumExtensions.cs:100-121 | Afterwards every property's actual schema, `Item`, every `Items` entry and `AdditionalPropertiesSchema` of the actual schema has been visited. Progress is kept. |
| EnumExtensions.VisitProperties | src/NSwag.CodeGeneration/EnumExtensions.cs:100-103 | Every property's actual schema is visited, and progress is kept. |
| EnumExtensions.VisitItems | src/NSwag.CodeGeneration/EnumExtensions.cs:110-116 | Every non-null entry of a non-null `Items` is visited, and progress is kept. |
| EnumExtensions.Descend | src/NSwag.CodeGeneration/EnumExtensions.cs:102 | A recursive call visits the child and extends the caller's progress with what it entered. |
| EnumExtensions.VisitList | src/NSwag.CodeGeneration/EnumExtensions.cs:18-21 | Every non-null schema of the list (component schemas, or media-type schemas) is visited, and progress is kept. |
| EnumExtensions.VisitParameters | src/NSwag.CodeGeneration/EnumExtensions.cs:27-30 | The actual schema of every parameter is visited. |
| EnumExtensions.VisitResponses | src/NSwag.CodeGeneration/EnumExtensions.cs:41-50 | The schemas of every response with content are visited. A response without content is skipped. |
| EnumExtensions.VisitOperation | src/NSwag.CodeGeneration/EnumExtensions.cs:27-50 | The operation's parameters, request body contents (when the body and its content are non-null) and response contents are visited. |
| EnumExtensions.VisitPath | src/NSwag.CodeGeneration/EnumExtensions.cs:25-51 | Every operation of the path item is covered. |
| EnumExtensions.RemoveCaseInsensitiveEnumDuplicates | src/NSwag.CodeGeneration/EnumExtensions.cs:10-53 | See below. |
| EnumExtensions.EvolvedAgainChangesNothing | src/NSwag.CodeGeneration/EnumExtensions.cs:57-97 | A later stretch of the walk that enters only schemas an earlier stretch entered leaves every list as the earlier stretch left it. |
| EnumExtensions.RemoveTwice | src/NSwag.CodeGeneration/EnumExtensions.cs:10-53 | Running the public method twice on the same document gives the lists one run gives: the second run changes nothing. |
| EnumExtensions.ReachedSchemasDeduplicated | src/NSwag.CodeGeneration/EnumExtensions.cs:55-122 | See below. |

`EnumExtensions.Visit` ensures the following:
- A null or already visited schema changes nothing.
- Otherwise the schema is added, and `visited` only grows.
- The newly visited schemas lie in every closed set holding the start, and each is entered once.
- Everything they lead to is visited.
- Exactly the actual schemas of the newly visited schemas have their lists replaced by `Deduplicated`, and every other schema keeps its lists.

`EnumExtensions.RemoveCaseInsensitiveEnumDuplicates` ensures the following:
- A null document visits nothing and changes no schema.
- Otherwise it visits every component schema, the actual schema of every parameter, every request and response media-type schema, and everything reachable from them.
- It enters each schema once.
- It changes exactly the lists of the actual schemas of the visited schemas, each to its deduplicated form.

`EnumExtensions.ReachedSchemasDeduplicated` states the following for every schema reachable from a visited schema. After the walk, its actual schema's lists are the deduplication of their old values. If the enumeration was eligible, no two values are equal ignoring case.

## Left out

- EnumDeduplication.SameIgnoringCase: `StringComparer.OrdinalIgnoreCase` is modelled as ASCII upper-case folding. Full Unicode simple case mapping is not modelled.
- EnumExtensions.Schema.Actual: `ActualSchema` follows one `$ref` step per call. NJsonSchema's resolution of reference chains to their final target is not modelled. As a consequence, on a chain of references p → q → r reached only through p, the model visits p and deduplicates q's lists, leaving r's lists as they were. NSwag would deduplicate r, because `p.ActualSchema` resolves to r. On graphs where every `$ref` points at a schema that has no `$ref` of its own, the model and NSwag agree.
- `ActualProperties` (properties merged with inherited `allOf` ones) is not computed. `Schema.properties` holds its result.
- `ActualPathItem`, `ActualOperations`, `ActualParameters`, `ActualRequestBody` and `ActualResponses` apply inheritance in the NJsonSchema/NSwag object model. Their results are the fields of the `PathItem`, `Operation`, `RequestBody` and `Response` datatypes.
- Dictionaries (`Components.Schemas`, `Paths`, `Content`, `Responses`, `ActualProperties`) become sequences of their values in enumeration order. Keys play no part in the walk.
- The `visited` `HashSet` is threaded through the walk as a value parameter and result instead of being mutated in place. Set membership by object identity is reference equality on `Schema`.
- The nested `foreach` loops of the entry point and of the descent are split into helper methods. `VisitList`, `VisitPath`, `VisitParameters`, `VisitResponses`, `VisitProperties` and `VisitItems` each hold one loop. `VisitOperation` has no loop: it is the body of `VisitPath`'s loop over the operations of a path item. The loop over `Paths` (`EnumExtensions.cs:23`) stays inline in `RemoveCaseInsensitiveEnumDuplicates`. Each recursive call goes through `Descend`, which adds the bookkeeping of the proof. Their order and effect are unchanged.
- EnumExtensions.Visit and the helper methods take ghost parameters. `graph` records the schema links, and `R` bounds what can be reached. They constrain the proof only, not what the walk does.
- Enumeration members that are not strings are kept as opaque JSON text. They are only tested for being strings.
- `System.Buffers.SearchValues` and the `#if NET8_0_OR_GREATER` split only speed up "contains any of". Both branches are modelled by `IndexOfAny`.
- The `JsonSchemaProperty` wrapper and the `IPropertyNameGenerator` interface are not modelled. `Generate` takes `property.Name` directly.
