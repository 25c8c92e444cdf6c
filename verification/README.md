# Verification of the document checker

This project models the parts of `oaverify` whose correctness is hardest to see from reading them, and proves what they are for.

- **Schema inventory.** Schemas are objects in a finite heap, compared by identity, possibly shared or cyclic. `SchemaDialects` walks them with an explicit stack and assigns each its effective dialect; `DocumentSchemas` grows the set of reference-established roots to a fixpoint, rebuilding every table under its own loops, and prunes what is no longer referenced; `ContextBuilder` closes a compile unit under references and dynamic anchors; `Preparer` admits or withholds it.
- **Result cache.** The pass that compiles every root remembers results by canonical target. It is compared, root by root and row by row, with a pass that compiles every root afresh.
- **Selection, exclusion and the exit gate.** Signed terms over codes, families and classes, the greedy elimination of terms that change nothing, which passes a selection runs, what stops a run, and everything from produced findings to the exit code.
- **Source spans.** The batch of positions to resolve, the table of answers, and the lookups made while rendering.
- **Four algorithms on text and results.** The JSON extent scanner, greedy word wrapping, the suite baseline comparison, and the `.http` parser against its printer.

Each class or method with loops is proved equal to a specification function; the main results are lemmas about those functions. What those functions answer is also stated from the fields of their inputs alone, in the modules named `...Fields`, `ReachedSchemas`, `DynamicScope`, `RecordedTables`, `CompiledRoots` and `CommandResults`.

## Where the code and its words differ

- The cache comment says cached messages and paths are independent of the entry. They are, but a result belongs to the schema, pointer and dialect it was compiled from, and the cache is keyed by the schema alone (by the pointer, for a schema that is no object). It shows exactly when some root meets a result compiled from another input (`CacheRows.TransparentIffOneInputEach`): a row is then lost (`CacheRows.LostRows`). An aliased schema does it (`CacheResults.AliasShows`).
- `checkMixedDialects` returns early when the walk met fewer than two dialects. A unit can still be mixed, and is then withheld without a report: a reference to the document itself is read in the document's default dialect, which the walk need not have met (`FewDialects.EarlyExitLosesFallback`; `FewDialects.EarlyExitLoses` says exactly when).
- Discovery runs until every reference is settled, and pruning rebuilds the scope without the roots it drops. In the finished inventory a reference can land outside the known positions again (`UnsettledInventory.FinishedIsUnsettled`; `Inventory.SettledExactly` says when).
- The comments on the span keys say neither a URI nor a pointer can contain a NUL character. RFC 6901, section 3, lets a pointer contain one; the keys only need that no URI extends another by one (`SpanTable.CollidesExactly`).
- `finding-key.ts` says no class and code are spelled alike. The conformance code `schema` is spelled like the class; the parser reads the class, so the code cannot be named by itself (`CodesApart.SchemaIsReadAsClass`).
- `firstJson` is said to ignore anything printed around the value. A bracket or brace printed before it is not ignored (`JsonExtent.SlicesPrintedValue`).
- The comment on `renderSarif`'s `spanOf` option says a reason is looked up at the finding's pointer plus the reason's path. The code looks it up at the reason's own resolved address; the model follows the code (`Spans.LocatedReasonsFor`).

## Assumptions

- The reference resolver answers through `References.Resolver`, a record of functions that may answer differently in every resolution scope; nothing is assumed about them. A resolver or anchor answer outside the heap counts as no answer.
- Compiling in the cache pass is a function of the canonical schema, its pointer and the dialect of its unit, and otherwise free. Preparing is the modelled compile unit; it cannot fail in the model, where in the source only exhausting the call stack could make it.
- A pass is coherent when its flags and lists say what they are named for: an object listed as a pure reference holds nothing but a `$ref`, without dynamic anchors no dynamic name is bound, and embedded resources have an `$id` (which `CacheResults.RebuiltResources` proves of rebuilt tables).
- In the `.http` round trip, form decoding undoes percent-encoding and an encoded query holds no white space.
- A document is a tree when no object sits at two pointers and what lies below an object sits below its pointer; a reference with a pointer for its fragment then resolves to what is there in the resource it names. Only `TreeDocuments` assumes this.
- Selection lemmas hold for every vocabulary that keeps its classes apart; the repository's own does (`CodesApart.RepositoryIsValid`). Results about exclusions and exit codes are about findings whose class declares their code.

## Model

| member | source | states |
|---|---|---|
| DialectWalk.SchemaDialects.Discover | packages/check/src/schema-dialects.ts:65-117 | The explicit-stack walk over shared and cyclic schemas ends, and leaves every table exactly as the recursive first-visit preorder would |
| DialectWalk.SchemaDialects.RecordPosition | packages/check/src/schema-dialects.ts:74-114 | One popped position writes all seven tables as specified and yields the positions below it in keyword order |
| DialectWalk.CollectChildren | packages/check/src/schema-dialects.ts:102-114 | The positions below an object are its subschemas minus those its `$ref` discards, with their pointers, paths and inherited dialect |
| DialectWalk.SchemaDialects.EnclosingAt | packages/check/src/schema-dialects.ts:119-127 | The upward search answers with the schema and dialect of the enclosing position |
| DialectWalk.SchemaDialects.RebuildFrom | packages/check/src/schema-dialects.ts:128-142 | A rebuild leaves the tables as if filled from nothing: authored roots first, then additional roots by pointer length |
| DialectWalk.SchemaDialects.constructor | packages/check/src/schema-dialects.ts:54-118 | A new inventory holds what a rebuild without additional roots would hold |
| Dialects.WalkAppend | packages/check/src/schema-dialects.ts:65-117 | Walking two lists of positions is walking the first and then the second over the tables it left |
| SchemaFields.KeptPicks | packages/core/src/ref-siblings.ts:34-40 | The subschemas a walk descends into are the entries, in order, but those an OAS 3.0 `$ref` discards |
| SchemaFields.FollowExactly | packages/check/src/document-schemas.ts:155-172 | A reference is followed exactly when its keyword counts and the resolver answers with a value of the document |
| SchemaFields.LandsExactly | packages/check/src/document-schemas.ts:93-118 | A reference lands on its target's recorded pointer; otherwise on its fragment below the document or below a recorded resource, and nowhere if that is no pointer |
| SchemaFields.NewRootExactly | packages/check/src/document-schemas.ts:126-142 | A reference establishes a root if and only if it lands at a pointer that is neither the document's nor a position |
| RecordedTables.WalkRecords | packages/check/src/schema-dialects.ts:74-114 | Every recorded object comes from a starting position or from an entry of a recorded object, read as it announces or else as it inherits; it is an embedded resource if and only if it is no root and has an `$id` |
| RecordedTables.ResourceIsRecorded | packages/check/src/schema-dialects.ts:101 | Every embedded resource is a recorded object at its recorded pointer |
| RecordedTables.PositionsExactly | packages/check/src/schema-dialects.ts:85-86 | A pointer is a position if and only if the walk visited it, and holds what a visit there gave it |
| RecordedTables.MetExactly | packages/check/src/schema-dialects.ts:87-97 | The dialects met and the unsupported readings listed are exactly those of visited positions |
| RecordedTables.RebuiltRecords | packages/check/src/schema-dialects.ts:128-142 | The same of rebuilt tables, over the authored and the additional roots |
| RecordedTables.StartsExactly | packages/check/src/schema-dialects.ts:128-142 | An additional root inherits what its nearest enclosing position is read in and is then no resource root; a free-standing one has the default and is one |
| RecordedTables.LookedUpExactly | packages/check/src/schema-dialects.ts:143-160 | The reading looked up for a schema is its object's, wherever asked for, else the position's, else the default |
| DialectResults.AnnouncedIsDeclared | packages/check/src/schema-dialects.ts:80-84 | A `$schema` counts at a root or an object with an `$id`, outside OAS 3.0, and is read by its URI with or without one trailing `#` |
| ReasonPointers.ChildPointerReadsBack | packages/check/src/schema-dialects.ts:107 | The pointer of a subschema reads back as its parent's segments, its keyword, and its index or name, whatever that holds |
| DialectFacts.PreorderOnce | packages/check/src/schema-dialects.ts:79 | No object is recorded twice, nor again once the tables hold it |
| DialectFacts.WalkRecordsReachable | packages/check/src/schema-dialects.ts:65-117 | A fresh walk records an object if and only if a chain of kept subschemas leads to it from a starting position |
| DialectResults.WalkMatches | packages/check/src/schema-dialects.ts:99-100 | The entry list names each recorded object exactly once, at the pointer and dialect the node table has |
| DialectResults.RebuiltCovers | packages/check/src/schema-dialects.ts:128-142 | After a rebuild every authored and additional root is recorded and every recorded object has one entry and a position |
| Rebuild.EnclosingIsNearest | packages/check/src/schema-dialects.ts:119-127 | The search finds the longest proper ancestor that is a position, and nothing only when there is none |
| Rebuild.SortIsAscending | packages/check/src/schema-dialects.ts:138 | Additional roots are visited in increasing pointer length; none is lost or added, and roots of one length keep their order |
| DialectResults.NearestDeclarationDecides | packages/check/src/schema-dialects.ts:80-84 | Down any chain, the last resource that declares `$schema` decides the dialect; without one the root's inherited dialect stands |
| DialectResults.RecordedAsReached | packages/check/src/schema-dialects.ts:79-99 | Without sharing, the recorded pointer, path and dialect of an object are those of the one way down to it |
| DialectResults.EffectiveIsNearestDeclared | packages/check/src/schema-dialects.ts:80-84 | On unshared schemas the effective dialect is the nearest self-or-enclosing declaration, else the inherited default; under OAS 3.0 declarations never matter |
| NestedRoots.RebuiltFromOuter | packages/check/src/schema-dialects.ts:128-142 | Additional roots that lie below other roots change nothing: the rebuild is one walk from the authored and the outer roots |
| NestedRoots.RebuiltIsNearestDeclared | packages/check/src/schema-dialects.ts:128-142 | In a rebuilt inventory with such nested roots too, every object is read in the nearest dialect declared on its way down from an authored or outer root |
| DialectResults.WalkWritesBelow | packages/check/src/schema-dialects.ts:85-114 | A walk changes no position outside the pointers it starts from |
| DialectResults.RebuildInheritsFromFinalTables | packages/check/src/schema-dialects.ts:119-142 | Although ancestors are looked up while the tables are still filling, the result is one walk in which every additional root inherits from its nearest enclosing position in the finished tables |
| RootPointers.RefPointerFromSupply | packages/check/src/document-schemas.ts:93-118 | A reference that lands on no recorded object lands on a recorded prefix followed by one of the document's own fragments |
| RootPointers.OtherRootMovesNothing | packages/check/src/document-schemas.ts:136-142 | Registering a root that is no object changes no object's pointer after the rebuild |
| RootPointers.AddingRootLowers | packages/check/src/document-schemas.ts:132-142 | Every root a reference establishes is new and claims an unclaimed object, or else an unclaimed pointer of an unchanged finite supply |
| RootPointers.DiscoveryIsFinite | packages/check/src/document-schemas.ts:119-150 | There is a measure that every newly established root lowers, whatever the resolver answers in whatever scope |
| Inventory.DocumentSchemas.constructor | packages/check/src/document-schemas.ts:28-92 | A new inventory has the authored roots only, and tables and scope that match them |
| Inventory.DocumentSchemas.Rescope | packages/check/src/document-schemas.ts:139-144 | Tables and resolution scope are rebuilt from exactly the authored and the additional roots |
| Inventory.DocumentSchemas.RegisterTarget | packages/check/src/document-schemas.ts:128-148 | A reference adds a root exactly when it lands outside the known positions, on both lists and with everything rebuilt |
| Inventory.DocumentSchemas.DiscoverPass | packages/check/src/document-schemas.ts:126-149 | A pass whose entry list is replaced under its index ends; one that adds nothing leaves every reference settled |
| Inventory.DocumentSchemas.Discover | packages/check/src/document-schemas.ts:121-150 | Discovery ends with every kept, resolvable reference of every entry landing nowhere, on the document, or on a known position; it adds no root if and only if that held before |
| Inventory.CollectReferenced | packages/check/src/document-schemas.ts:155-180 | The stack loop collects exactly the pointers landed on by references of schemas the authored roots reach |
| ReachedSchemas.RecordedIsReached | packages/check/src/document-schemas.ts:155-180 | Every object the walk over the authored roots records is reached |
| ReachedSchemas.ReachedLeadsOn | packages/check/src/document-schemas.ts:155-180 | With an object its subschemas are reached, and what either of its references resolves to |
| ReachedSchemas.ReachableExactly | packages/check/src/document-schemas.ts:155-180 | What the collection reaches is the least set that holds the authored schemas and is closed in that way |
| ReachedSchemas.RoundKeeps | packages/check/src/document-schemas.ts:181-188 | A round keeps, in order, exactly the additional roots whose pointer a reference of a reached object lands on |
| ReachedSchemas.PrunedByRounds | packages/check/src/document-schemas.ts:153-197 | Pruning is such rounds, each in the scope the one before left, up to the first that drops nothing |
| Inventory.DocumentSchemas.DropUnreferenced | packages/check/src/document-schemas.ts:181-188 | Deleting while iterating removes from both lists exactly the additional roots no reference landed on, in order, and no authored root |
| Inventory.DocumentSchemas.Prune | packages/check/src/document-schemas.ts:153-197 | Pruning ends with the roots that repeated rounds of dropping unreferenced roots leave, tables and scope rebuilt |
| Inventory.PrunedAreReferenced | packages/check/src/document-schemas.ts:151-197 | Every surviving root was there before and is referenced from a schema the authored roots reach under the final scope |
| Inventory.BuildSchemas | packages/check/src/document-schemas.ts:28-197 | The whole inventory: discovery to its fixpoint, then pruning; every additional root left is referenced in the final scope and tables; its references are settled if and only if discovering again would add no root, and so whenever no root was dropped |
| Inventory.SettledExactly | packages/check/src/document-schemas.ts:119-150 | The references of an inventory are settled if and only if no chain of listed schemas' references establishes a further root |
| UnsettledInventory.FinishedIsUnsettled | packages/check/src/document-schemas.ts:119-197 | A document whose finished inventory is not settled: pruning drops a root that a reference of a schema left behind then lands on, and discovering again would add roots |
| CompileContext.ContextBuilder.Visit | packages/check/src/document-schemas.ts:207-247 | The recursive visit of a cyclic graph ends, lists each value once and adds only what the unit needs |
| CompileContext.ContextBuilder.VisitRef | packages/check/src/document-schemas.ts:215-236 | The target of a kept, resolvable reference is visited at the pointer the reference lands on |
| CompileContext.ContextBuilder.VisitChildren | packages/check/src/document-schemas.ts:237-246 | Every kept subschema is visited at its own pointer |
| CompileContext.ContextBuilder.RebindPass | packages/check/src/document-schemas.ts:252-257 | One pass over bases and names that grow under it visits every binding, or else finds a new schema |
| CompileContext.ContextBuilder.Collect | packages/check/src/document-schemas.ts:198-258 | The unit is the least set holding the entry and closed under subschemas, references and dynamic rebindings, each listed once, with exactly the dialects its visits read |
| CompileContext.UnitIsUnique | packages/check/src/document-schemas.ts:198-258 | An entry has one compile unit |
| CompileContext.UnitExists | packages/check/src/document-schemas.ts:198-258 | Every entry has a compile unit, whatever the resolver answers |
| PureReferences.PureUnit | packages/check/src/document-schemas.ts:402-429 | Where no dynamic name is bound, the unit of a schema that is only a reference is its target's unit and itself |
| CompileContext.LandsInUnit | packages/check/src/document-schemas.ts:259-276 | Whatever a `$dynamicRef` of the unit can land on is in the unit (section 8.2.3.2 of JSON Schema Core 2020-12) |
| CompileContext.ContextBuilder.DynamicTargets | packages/check/src/document-schemas.ts:259-276 | The targets returned are the reference's own target and every binding of its name in the unit's resources, all inside the unit |
| DynamicScope.NamedReferenceIsRebound | packages/check/src/document-schemas.ts:259-276 | A `$dynamicRef` written as a URI, `#` and a name can land on its target, and if the name is plain and the target's dynamic anchor, on exactly what the unit's resources bind it to |
| DynamicScope.NamelessReferenceStays | packages/check/src/document-schemas.ts:259-276 | A `$dynamicRef` without `#` lands on its target alone |
| DynamicScope.UnitExactly | packages/check/src/document-schemas.ts:198-258 | A unit is what every set holds that holds the entry, what its objects lead to, and the objects the names they use are bound to in their resources |
| DynamicScope.VisitsExactly | packages/check/src/document-schemas.ts:207-257 | Its visits are the entry's, each subschema's at its own pointer, each reference target's where it lands, and each rebinding's without pointer |
| Preparation.Preparer.Prepare | packages/check/src/document-schemas.ts:287-312 | A unit is admitted, with its schemas and dialect, exactly when all it reaches is read in the entry's own supported dialect, and reported mixed exactly when all of it is supported but some differs |
| Preparation.Preparer.CheckMixedDialects | packages/check/src/document-schemas.ts:330-341 | The report holds exactly the mixed units of the roots whose graph could be built |
| CompiledRoots.MixedExactly | packages/check/src/document-schemas.ts:287-312 | A unit is mixed if and only if its entry and all it reaches are read in supported dialects and something is not read in the entry's |
| CompiledRoots.MixedReportedAt | packages/check/src/document-schemas.ts:297-303 | It is reported at the pointer it was prepared at, else at its entry's recorded pointer, else at the document |
| FewDialects.RebuiltReadingsMet | packages/check/src/schema-dialects.ts:85-97 | In rebuilt tables every supported dialect an object or position is read in is among those the walk met |
| FewDialects.EarlyExitLoses | packages/check/src/document-schemas.ts:331 | With fewer than two dialects met no unit is mixed if the document's default dialect is unsupported or was met; otherwise a unit is mixed, and lost by the early exit, if and only if all it reaches is supported and it reaches both the met dialect and the default |
| FewDialects.EarlyExitLosesFallback | packages/check/src/document-schemas.ts:331 | A document whose only schema has a mixed unit that the early exit loses: it declares JSON Schema 2020-12 and refers to `#` |
| FewDialects.FallbackIsDiscovered | packages/check/src/document-schemas.ts:119-150 | That document's inventory is complete: the reference lands on the document and establishes no root |
| SchemaFindings.Canonicalize | packages/check/src/document-schemas.ts:402-429 | Following pure references ends, on cycles too, at the canonical schema and pointer |
| CompiledRoots.CanonicalExactly | packages/check/src/document-schemas.ts:402-429 | The canonical target is the end of a way along pure references that passes no object twice |
| CompiledRoots.RootsExactly | packages/check/src/document-schemas.ts:349-353 | The roots looked at are the inventory's, in order, and then every embedded resource |
| CompiledRoots.EveryRootChecked | packages/check/src/document-schemas.ts:349-441 | Every root is compiled, or its graph failed, or its dialect or unit is refused, or it is an embedded resource that a compiled unit holds |
| CompiledRoots.CompiledExactly | packages/check/src/document-schemas.ts:349-441 | A root is compiled if and only if it is read in a supported dialect, is a root of the inventory or no unit compiled before holds it, its graph could be built, and its unit is read alike throughout |
| CompiledRoots.InputExactly | packages/check/src/document-schemas.ts:436-455 | It is compiled from its canonical target, at that pointer, in the dialect its unit is read in |
| CompiledRoots.IssueReported | packages/check/src/document-schemas.ts:359-379 | A diagnostic is reported under the root's label with its own code, message, address and contributors |
| CompiledRoots.ErrorReported | packages/check/src/document-schemas.ts:359-379 | A failure is reported as a malformed schema under the root's label, anchored as the root's own if and only if it lies in it |
| Findings.FindingTable.AddSchemaFinding | packages/check/src/check.ts:658-668 | A finding with a new code, message and pointer is appended; any other only counts against the row it repeats |
| Findings.SameRowExactly | packages/check/src/check.ts:658-668 | Two findings share a row if and only if they have one code and one pointer, and one message unless both are malformed |
| SchemaFindings.CheckDocumentSchemas | packages/check/src/document-schemas.ts:344-504 | The pass with its result cache and covered set, preparing each root with `Preparer`, produces the table of the cached run |
| CacheTransparency.EntryFindingKeys | packages/check/src/document-schemas.ts:359-379 | The keys of an entry's findings depend only on what it is compiled from, not on which entry compiled or reports |
| CacheTransparency.DistinctPicks | packages/check/src/document-schemas.ts:456-462 | Of one compile's diagnostics those are kept, in order, whose code, message and pointer no earlier one has |
| CacheTransparency.EntryKeysExactly | packages/check/src/document-schemas.ts:456-500 | The keys reported of a compile are exactly those of its diagnostics, or of its failure's address |
| CacheTransparency.RepeatsOnlyCount | packages/check/src/check.ts:658-668 | Findings whose rows exist only count, whatever anchors and labels they carry |
| CacheRuns.SameKeySameResources | packages/check/src/document-schemas.ts:344-504 | Roots with one canonical target cover the same embedded resources, whichever of them is compiled |
| CacheRuns.InStep | packages/check/src/document-schemas.ts:344-504 | Root by root, the run with the cache and the run without look at the same roots, and the cache holds exactly the keys compiled so far, each with its first root's findings |
| CacheTransparency.CacheIsTransparent | packages/check/src/document-schemas.ts:430-435 | When no root meets a result compiled from another schema, pointer or dialect than its own, the table equals that of compiling every root afresh: order, first occurrences, anchors, labels and counts |
| CacheRows.LostRows | packages/check/src/document-schemas.ts:430-435 | A row of the fresh table is a diagnostic or failure some compiled root's compile has, or a failing graph; of the cached table, one that the first root compiled for its key has. So caching adds no row and loses exactly those only other roots have |
| CacheRows.RowIsLost | packages/check/src/document-schemas.ts:430-435 | A compiled root that meets a result compiled from another input loses its diagnostic, for any lint that reports one diagnostic at every schema and names schemas and dialects apart: only the fresh table has the row |
| CacheRows.SharedKeyShows | packages/check/src/document-schemas.ts:430-435 | When some root meets a result compiled from another input, or without being compiled itself, any such lint shows the cache |
| CacheRows.TransparentIffOneInputEach | packages/check/src/document-schemas.ts:430-435 | Caching never shows if and only if no root meets a result compiled from another input, in any document: embedded resources, failing graphs, withheld units and several dialects included; and one lint, the same for all documents, shows it whenever any compiler does |
| CacheResults.RebuiltResources | packages/check/src/schema-dialects.ts:101 | Every embedded resource of rebuilt tables is an object with an `$id` |
| CacheResults.InputDialect | packages/check/src/document-schemas.ts:287-312 | Whichever root leads to a canonical target, the dialect it is compiled in is the one the target is read in |
| CacheResults.UnsharedIsTransparent | packages/check/src/document-schemas.ts:402-435 | When every root's object is recorded at the root's own pointer, so that no schema object sits at two positions, and pure references land at pointers and end in the tables, caching never shows, in one dialect or several |
| TreeDocuments.RebuiltSits | packages/check/src/schema-dialects.ts:128-142 | Rebuilt from roots of a document that is a tree, the tables record every schema at the pointer it sits at |
| TreeDocuments.DiscoveredSit | packages/check/src/document-schemas.ts:119-150 | Every root a reference establishes in such a document sits at the pointer it is registered with |
| TreeDocuments.TreeIsTransparent | packages/check/src/document-schemas.ts:28-197 | Over the inventory built from a document that is a tree, whose references name what is at their pointers and whose pure references land at one, caching never shows; pure references to the document itself included |
| CacheResults.AliasShows | packages/check/src/document-schemas.ts:430-435 | Two schema slots that hold one object, as a YAML alias makes them: a lint that reports one diagnostic at every schema gives a row at each pointer afresh, and with the cache one row that counts for both |
| CodesApart.RepositoryIsValid | packages/check/src/codes.ts:21-195 | In the declared vocabulary every class has codes and no code belongs to two classes |
| CodesApart.RepositoryMalformedApart | packages/check/src/codes.ts:21-195 | In the declared vocabulary no schema code extends the code of malformed schemas by a NUL, so no diagnostic shares a row with one |
| FindingKeys.FamilyIsPrefix | packages/check/src/selection.ts:198-199 | Starting with `family/` and having that family before the first slash are the same |
| FindingKeys.ParsedKeysName | packages/check/src/finding-key.ts:78-110 | Every key the parser accepts, the refused malformed codes aside, names something selectable |
| FindingKeys.KeyReadExactly | packages/check/src/finding-key.ts:78-110 | A text reads as a family with `/*`, else without a star as the class it spells, else as the declared code it is, and nothing else reads |
| FindingKeys.KeysReadBack | packages/check/src/finding-key.ts:78-110 | A key written out parses back to itself, except that a code spelled like a class is read as the class |
| FindingKeys.CodeCanBeNamed | packages/check/src/finding-key.ts:78-110 | A selectable code can be named by itself if and only if no class is spelled like it |
| CodesApart.SchemaIsReadAsClass | packages/check/src/finding-key.ts:78-110 | The conformance code `schema` is read as the class, and no text names that code alone |
| FindingKeys.SameKindApart | packages/check/src/selection.ts:194-203 | Two different parsed keys of one kind name no code in common |
| CommandResults.ExpandExactly | packages/check/src/selection.ts:192-205 | A key names one code, the codes before whose first slash its family stands, or its class's codes, the malformed ones never |
| Selection.LiveKeysCover | packages/check/src/selection.ts:276-301 | Whatever code any key of a sign names in its universe, some live key names too |
| Selection.LiveKeyIsNeeded | packages/check/src/selection.ts:276-301 | Every live key names a code of its universe that no other live key names |
| Selection.LiveKeysStayLive | packages/check/src/selection.ts:276-301 | Keeping only the live keys leaves every one of them live |
| Resolve.MarkRepeats | packages/check/src/selection.ts:235-240 | Exactly the terms with the sign and key of an earlier term are marked as repeats |
| Resolve.GreedyDecides | packages/check/src/selection.ts:246-268 | Examined most specific first, what the terms still standing name decides exactly whether a key is covered |
| Resolve.MarkCovered | packages/check/src/selection.ts:276-301 | The greedy pass over one sign leaves in place, for every term, the verdict defined from the set of keys alone |
| Resolve.ResolveFindingSelection | packages/check/src/selection.ts:229-330 | Base, classes, the compile switch and every term's verdict are those defined from the sets of keys; the exclusion keys are the live ones in written order |
| CommandResults.BaseExactly | packages/check/src/selection.ts:270-274 | A code is selected if and only if it can be and nothing is included or some inclusion names it |
| CommandResults.ClassesExactly | packages/check/src/selection.ts:306-308 | A class runs if and only if some code of it is selected |
| CommandResults.VerdictExactly | packages/check/src/selection.ts:211-226 | A term is said to repeat, to lie outside the selection, or to be named already exactly when an earlier one is equal, nothing it names is in the base, or terms left standing name all it names; and nothing is said otherwise |
| SelectionResults.LiveTermKeys | packages/check/src/selection.ts:276-304 | The keys of the terms left standing are the live keys of their sign |
| SelectionResults.NoopsCanBeDeleted | packages/check/src/selection.ts:211-226 | Deleting all no-op terms at once keeps base, classes, the compile switch and the codes excluded from the base, and resolving the rest marks no no-op |
| SelectionResults.LiveTermsAreNeeded | packages/check/src/selection.ts:219-221 | Each live term names a base code that no other live term of its sign names |
| SelectionResults.OrderNeverMatters | packages/check/src/selection.ts:217-217 | Term lists with the same signed keys have the same base and the same live inclusion and exclusion keys |
| SelectionResults.PermutationsResolveAlike | packages/check/src/selection.ts:217-217 | Permuting the terms changes neither the base nor the live keys |
| FindingTerms.ParseFindingTerms | packages/check/src/selection.ts:150-184 | The loop accepts and refuses values, and reads terms, as the entry-by-entry definition does |
| FindingTerms.ParsedTermsName | packages/check/src/selection.ts:150-184 | An accepted value has at least one term and every term names something selectable |
| FindingTerms.TermReadExactly | packages/check/src/selection.ts:162-176 | An entry is the key after an optional dash, refused if it names malformed schemas |
| FindingTerms.EntriesReadExactly | packages/check/src/selection.ts:158-177 | The entries that are not blank are read in order, one term each, and one refused entry refuses all |
| FindingTerms.ValueRefusedExactly | packages/check/src/selection.ts:150-184 | A value is refused if and only if some entry is or all are blank |
| FindingTerms.TermsReadBack | packages/check/src/selection.ts:150-184 | Parsed terms joined by commas parse back to themselves |
| FindingTerms.FlagCanBeRewritten | packages/check/src/selection.ts:219-226 | The flag rewritten without its no-op terms parses to the live terms, selects and withholds the same, and reports no no-op |
| Reporting.ApplySkip | packages/check/src/skip.ts:125-154 | Kept findings are those no key selects, in order; kept plus dropped is the total; each count is that key's matches |
| Reporting.MatchesByCode | packages/check/src/skip.ts:93-104 | For a finding as the passes produce it, a key selects it exactly when the key names its code, and never a malformed one |
| Reporting.WithheldAlike | packages/check/src/skip.ts:125-154 | The live exclusions withhold a finding of the base exactly when some written exclusion selects it |
| Reporting.LiveExclusionsSuffice | packages/cli/src/commands.ts:728-729 | Passing only the live exclusions keeps exactly the findings all written exclusions would keep |
| Reporting.Report.Grade | packages/check/src/check.ts:575-598 | Narrowing and regrading in place, with both fast paths, equal the plain filter and map; a malformed finding keeps its place and severity |
| Reporting.ReportedFindings | packages/cli/src/commands.ts:728-729 | A finding is reported if and only if it was produced, its code is selected, and no written exclusion selects it |
| CommandResults.ReportExactly | packages/cli/src/commands.ts:728-729 | The report is the malformed findings as they are, and each finding that is produced, selected and not excluded, with its grade |
| CommandResults.SeverityExactly | packages/check/src/severity.ts:112-128 | A grade for the code wins over one for the family, that over one for the class, and that over the finding's own |
| CommandResults.KeptPicks | packages/check/src/skip.ts:125-154 | Withholding keeps, in order, the findings no key selects |
| Reporting.MalformedIsAlwaysReported | packages/check/src/check.ts:569-574 | No inclusion, exclusion or severity map drops or regrades a malformed finding |
| Reporting.MalformedExitStands | packages/cli/src/commands.ts:823-827 | The exit code is 4 if and only if a malformed finding was produced: no exclusion, severity map or threshold clears it |
| Reporting.ExcludingNeverRaisesExit | packages/cli/src/commands.ts:823-834 | Adding exclusions never raises the exit code |
| Reporting.RaisingTheThresholdNeverRaisesExit | packages/cli/src/commands.ts:828-833 | A stricter `failOn`, or none, never raises the exit code |
| CommandResults.ExitCodeExactly | packages/cli/src/commands.ts:823-834 | The exit code is 4 for a malformed finding, else 1 for one at or above the threshold, severity by severity, else 0 |
| CommandResults.ExitOneExactly | packages/cli/src/commands.ts:823-834 | A run that ends exits with 1 if and only if it meets no malformed schema and produces a selected, unexcluded finding whose grade meets the threshold, and with 0 exactly otherwise |
| Reporting.GradeAndWithhold | packages/cli/src/commands.ts:718-729 | A complete report and the partial one of an aborted run are narrowed, graded and withheld alike |
| Reporting.CheckTail | packages/cli/src/commands.ts:723-834 | The tail of the command ends with the report and exit code so defined |
| Reporting.ClassesRunAsNamed | packages/check/src/selection.ts:361-366 | Selecting by class runs exactly the classes named, and an empty list none |
| PassGates.RunPasses | packages/check/src/check.ts:262-547 | A document the validator cannot be built for stops the run with the hygiene findings met so far; otherwise each pass runs exactly when the selection asks for its class or code, and schema findings come last with repeats collapsed |
| CommandResults.GatesLoseNothing | packages/check/src/check.ts:262-547 | A finding outside the schema class whose code is selected is produced if and only if the pass of its class finds it: gating passes by class loses nothing |
| CommandResults.SchemaGatesLoseNothing | packages/check/src/check.ts:440-545 | A selected format finding is produced, and a selected diagnostic, malformed schema or dialect finding has its row |
| MalformedRows.MalformedExactly | packages/check/src/document-schemas.ts:344-504 | The table of schema findings holds a malformed schema if and only if some root's graph cannot be built or the first root compiled for some key fails, whatever rows repeats collapse into |
| PassGates.MalformedProduced | packages/check/src/selection.ts:101-106 | A graded run has a malformed finding if and only if it compiled and compiling found one |
| PassGates.ExitTwoExactly | packages/cli/src/commands.ts:702-720 | A run exits with 2 if and only if the validator cannot be built, whatever is selected, excluded or gated on; it then reports hygiene findings only, and none where hygiene is not selected |
| CommandResults.StoppedReports | packages/cli/src/commands.ts:702-720 | A stopped run reports exactly the hygiene findings met by then that are selected and not excluded, graded |
| PassGates.CrashesExactly | packages/check/src/check.ts:262-378 | A run fails with the checker's own error if and only if the validator can be built, hygiene is selected and its lint throws |
| PassGates.ExitFourExactly | packages/cli/src/commands.ts:823-827 | A run exits with 4 if and only if it runs to its end, the inclusions select a code only compiling produces, and compiling finds a malformed schema: exclusions, grading and the threshold make no difference |
| PassGates.CheckCommand | packages/cli/src/commands.ts:697-834 | The command from terms to report and exit code, aborted and failing runs included: resolve, run the passes, grade, withhold and gate |
| Spans.Batch.AddFinding | packages/check/src/span-target.ts:147-169 | The requests of one finding are its address with the fallback, its hops, its contributors and its reasons, each only where it has an address |
| Spans.SpanRequestsFor | packages/check/src/span-target.ts:137-172 | The batch is every position any finding asks for, the first of each key, in order |
| SpanFields.NameWantedExactly | packages/check/src/span-target.ts:88-108 | Exactly six codes are shown at the name of their node |
| SpanFields.WantedExactly | packages/check/src/span-target.ts:137-172 | A finding asks for its address, its hops, its contributors' addresses and its reasons', and for nothing without an address |
| SpanFields.BatchPicks | packages/check/src/span-target.ts:137-172 | The batch is the requests, in order, whose key none before them has |
| Spans.LocatedReasonsFor | packages/check/src/span-target.ts:383-412 | The reasons listed are those with an address, a position of their own and a span, in order |
| SpanFields.LocatedExactly | packages/check/src/span-target.ts:230-254 | A reason is located along its path, or at the container where the member its path ends in is missing |
| Spans.RelatedLocationsOf | packages/check/src/sarif.ts:233-307 | Hops, located reasons and located contributors follow in one id sequence |
| SpanFields.ShownExactly | packages/check/src/span-target.ts:425-437 | A finding is shown at the name where its code wants it and it has a span, and else at the value |
| SpanFields.HopsComeFirst | packages/check/src/sarif.ts:233-250 | The related locations start with the address's hops |
| SpanFields.ReasonsComeNext | packages/check/src/sarif.ts:250-280 | Then come the located reasons, each at its own address |
| SpanFields.ContributorsComeLast | packages/check/src/sarif.ts:280-307 | Last come exactly the contributors with an address and a span |
| SpanTable.ReadTexts | packages/cli/src/check-spans.ts:107-120 | Whatever order the reads finish in, the texts are exactly the readable documents of the batch |
| SpanTable.SpanLookupFor | packages/cli/src/check-spans.ts:99-138 | With both early exits, the table holds for each batch key the span its document gives |
| SpanTable.KeysApart | packages/check/src/span-target.ts:110-116 | Two requests share a key only if they ask the same, unless one URI extends the other by a NUL character; pointers are free |
| SpanTable.NulUriSharesKey | packages/cli/src/check-spans.ts:39-53 | A URI that extends another by a NUL shares keys with it, at pointers that make up the difference |
| SpanTable.CollidesExactly | packages/cli/src/check-spans.ts:39-53 | Some positions of two documents share a key if and only if one URI extends the other by a NUL character |
| SpanTable.BatchIsDistinct | packages/check/src/span-target.ts:140-145 | No two requests of the batch ask the same |
| SpanTable.TableAnswers | packages/cli/src/check-spans.ts:130-137 | When no URI extends another by a NUL, the table answers any question, spelled with or without its default, as the resolver if it is in the batch and not otherwise |
| SpanFields.AnsweredExactly | packages/cli/src/check-spans.ts:99-138 | The table answers a question with the span found for its part in its document, if the batch asks the same, and not otherwise |
| SpanTable.TableRendersAlike | packages/cli/src/check-spans.ts:99-138 | When no URI extends another by a NUL, every finding's own location and related locations render from the table exactly as from the resolver itself |
| SpanTable.PreferenceLosesNothing | packages/check/src/span-target.ts:425-437 | Preferring the name never loses a finding its span: it has one whenever the name or the value has |
| SpanTable.RelatedIdsAreConsecutive | packages/check/src/sarif.ts:232-307 | Related locations are numbered exactly 1, 2, and so on, whatever was found or dropped |
| ReasonPointers.PointerFor | packages/check/src/span-target.ts:257-263 | The loop appends each escaped segment to the pointer |
| ReasonPointers.PathReadsBack | packages/check/src/span-target.ts:257-263 | The extended pointer reads back as the old segments and then the path, whatever tildes and slashes the names hold (RFC 6901, sections 3 and 4) |
| ReasonPointers.EscapedAsInInventory | packages/check/src/span-target.ts:260 | Replacing tildes and then slashes spells a segment as the inventory's own pointers do |
| ReasonPointers.ReasonPointersFor | packages/check/src/span-target.ts:287-297 | The loop lists the addresses of the reasons that have one, with their indices |
| ReasonPointers.ReasonIsAddressed | packages/check/src/span-target.ts:250-254 | A reason has an address if and only if it names a position inside the value |
| ReasonPointers.AddressNamesPosition | packages/check/src/span-target.ts:234-254 | The address and the missing member's name make up the path the reason names, and never the value as a whole |
| JsonExtent.FirstJson | detection/run.ts:64-94 | The one-pass scanner slices exactly the extent of the bracket-counting definition and hands it to the parser |
| JsonExtent.JsonPasses | detection/run.ts:72-92 | Any JSON value inside the scanned one, however nested, leaves the scan at the depth it found it |
| JsonExtent.SlicesPrintedValue | detection/run.ts:59-94 | In any output the slice is the printed array or object if and only if nothing before it opens a bracket or brace |
| TextWords.WordsKeepCharacters | packages/cli/src/commands.ts:500 | The words hold every character of the text that is no white space, in order |
| TextWords.WordsReadBack | packages/cli/src/commands.ts:500 | Words joined by single spaces split into the same words |
| WrapText.Wrap | packages/cli/src/commands.ts:496-513 | The loop prints the greedy wrapping, or the bare trimmed prefix when there is no word |
| WrapText.PrintedEach | packages/cli/src/commands.ts:487-494 | Each line is its prefix and its words with single spaces between |
| WrapText.GreedyWraps | packages/cli/src/commands.ts:487-494 | No word is lost or moved, no line is empty, and every line of two or more words fits the width after its prefix |
| WrapText.GreedyIsFewest | packages/cli/src/commands.ts:487-494 | No other wrapping under the same rule prints fewer lines, even with different first and continuation prefixes |
| Baseline.CheckMismatches | conformance/json-schema-baseline.ts:77-107 | Mismatches are accepted exactly when each is one, of a case of this run, reported once; the crashes are counted |
| Baseline.IndexResults | conformance/json-schema-baseline.ts:38-114 | A measurement is indexed exactly when every entry is consistent and the files are those of this run |
| Baseline.AcceptedFacts | conformance/json-schema-baseline.ts:110-113 | An accepted measurement holds one consistent result for each file of the run and for no other |
| BaselineFields.AcceptedExactly | conformance/json-schema-baseline.ts:38-114 | A measurement is accepted if and only if it has one consistent entry for each file of the run and no other |
| BaselineFields.HoldsExactly | conformance/json-schema-baseline.ts:77-107 | Mismatches hold if and only if each is a wrong verdict or a crash that names its phase, of a case of the run, and no two are of one case |
| BaselineFields.OutcomeExactly | conformance/json-schema-baseline.ts:33-36 | A failure is a wrong verdict, or a crash in the phase its reason names |
| Baseline.CompareFile | conformance/json-schema-baseline.ts:155-171 | Deleting each current failure from what is known leaves the same regressions and improvements as comparing the two lists |
| Baseline.CompareSuiteBaseline | conformance/json-schema-baseline.ts:135-174 | Either measurement may be refused and so may a changed group count; otherwise the comparison covers each file in the baseline's order |
| BaselineFields.RegressionsExactly | conformance/json-schema-baseline.ts:155-171 | A regression is noted for exactly the failures of cases the baseline passed and the crashes where it failed otherwise |
| BaselineFields.ImprovementsExactly | conformance/json-schema-baseline.ts:155-171 | An improvement is noted for exactly the verdicts where there was a crash and the failures that are gone |
| BaselineResults.FileConservation | conformance/json-schema-baseline.ts:155-171 | In each file the gain in passing cases is what newly passes less what newly fails |
| BaselineResults.SuiteConservation | conformance/json-schema-baseline.ts:135-174 | Over the suite too, whatever the order of files, and the totals reported are the baseline's |
| BaselineResults.GateIsExact | conformance/json-schema-baseline.ts:123-134 | No regression is reported if and only if every failing case failed before in the same way, or crashed before and now answers |
| BaselineResults.NoNewFailures | conformance/json-schema-baseline.ts:123-134 | Without regressions the failing cases of each file are among the baseline's |
| HttpFile.BuildQuery | conformance/run-openapi-cases.ts:43-48 | The printer's query is its parameters' fields in order, each value of a list its own, encoded and joined by `&` |
| HttpFields.QuerySplits | conformance/run-openapi-cases.ts:43-48 | The printed query splits at its ampersands into one text for each field, and that at its equals sign into the encoded name and value |
| HttpFile.BuildHttpFile | conformance/run-openapi-cases.ts:42-59 | The printer's lines are the request line, the content type unless empty, the headers, an empty line and the body |
| HttpFile.ParseHeaders | packages/cli/src/http-parser.ts:58-71 | The header loop groups repeated names and keeps the last content type |
| HttpFields.RequestLineExactly | packages/cli/src/http-parser.ts:36-38 | A request line is two words, or three of which the last is a protocol version |
| HttpFields.HeaderLineExactly | packages/cli/src/http-parser.ts:58-71 | A line with a colon adds the trimmed text after the first to the values of the trimmed, folded name before it |
| HttpFields.JsonTypeExactly | packages/cli/src/http-parser.ts:75-76 | A content type declares JSON by what stands before its first semicolon |
| HttpFields.BodyExactly | packages/cli/src/http-parser.ts:73-108 | A body is refused, JSON, text or none by its type, its first character and the JSON parser alone |
| HttpFile.ParseQuery | packages/cli/src/http-parser.ts:45-57 | The loop maps every name but the empty one to its one value or to the list of its values |
| HttpFile.ParseHttpFile | packages/cli/src/http-parser.ts:29-110 | The parser returns, or refuses, the request the text stands for |
| HttpRoundTrip.HeadersReadBack | packages/cli/src/http-parser.ts:58-71 | Printed headers are read as the multimap of lower-case names: one value as it is, several as a list in order, the last content type noted |
| HttpRoundTrip.QueryIsGrouped | packages/cli/src/http-parser.ts:45-57 | A name of the query is read with exactly its values, in order |
| HttpRoundTrip.ParamComesBack | conformance/run-openapi-cases.ts:43-48 | A printed parameter comes back in its own shape if and only if it is one value or a list of several: a list of one comes back as its value, an empty list not at all |
| HttpRoundTrip.BodyIsTakenAs | packages/cli/src/http-parser.ts:73-108 | A printed file is refused if and only if its body is declared JSON and is none; the body is handed on as JSON if and only if it is some and was declared so, or was not declared and opens like it; else its text stays |
| HttpRoundTrip.FileReadsBack | packages/cli/src/http-parser.ts:29-110 | Parsing what was printed returns the upper-case method, path, decoded query, header multimap, content type and body |
| HttpRoundTrip.BodyComesBack | packages/cli/src/http-parser.ts:72-108 | The raw body of an accepted file is the one printed if and only if none was printed, or it is not empty, is trimmed and has no carriage return before a line feed; an empty body comes back as none |
| HttpRoundTrip.ReturnsReadBack | packages/cli/src/http-parser.ts:30 | A file with CRLF line ends is read as the same request |

## Left out

- The schema compiler, the reference resolver and its graph building, URL resolution and fragment decoding: functions given to the model.
- Walking the OpenAPI document for its authored schema slots, and the choice of the document's own dialect: the authored roots and the default dialect are inputs.
- The insertion order of the `unsupported` and `mixed` reports: the model keeps them as a map and a set by pointer.
- Inventory.DocumentSchemas.constructor: isolating the roots whose resolution graph fails to build is not modelled; which roots failed is a parameter of the passes over the finished inventory.
- PassGates.RunPasses: what each pass but the schema pass finds is a parameter, with its findings of its own class; so is whether the validator can be built. Building the inventory lazily is not modelled.
- HttpFile.BuildHttpFile: percent-encoding is a function given to the model, and letter case is that of ASCII.
- HttpFile.ParseHttpFile: form decoding is a function given to the model, and letter case is that of ASCII.
- HttpRoundTrip.FileReadsBack: method and header names are folded as ASCII only.
- HttpFile.ParseHeaders: headers named `constructor` or `__proto__` meet JavaScript's object prototype in the source; the model's table has none.
- Reporting.ReportedFindings: a finding whose class does not declare its code is kept by narrowing, as in the source, but the exclusion results do not speak about it.
- The text of every message, label and rule, SARIF as JSON, the grouping of rules in a SARIF run, and artifact locations relative to a base directory.
- The grammar of `--severity` and `--skip` values and the default severities; `parseSkipKeys` reads the same keys as the terms do.
- Source attribution through regions and overlays: source addresses are inputs of the span model.
- How positions are found in a text: the span backends, the choice of syntax by extension, and which URIs name files are one reading function and one finding function.
- Strings are sequences of characters; the width of a line and the length of a pointer are not counted in UTF-16 code units.
- JSON parsing and printing of `.http` bodies are functions of the text.
- Baseline entries of the wrong shape are one case, refused; which error is raised and its wording are not modelled. Case data is compared as its JSON text.
- Sorting by pointer length and by specificity is a specification function, not an implementation; so is `indexOf`.
- File, network and process input and output, and the other commands.
