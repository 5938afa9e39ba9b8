# Verified model of the MongoDB connector's query rewriting and type inference

This Dafny project models the parts of the MongoDB data connector that rewrite queries, infer schemas
and types, and compile references and patterns, and proves what they are for.

- **Relational rewriting.** A relational-algebra tree is rewritten before it becomes an aggregation
  pipeline: right joins become left joins, predicates and sorts move below projections, and a filter is
  lifted into a `$match` on the root collection. `Relations` gives trees a meaning, a function from a
  database to a sequence of rows; joins iterate over the side they preserve, sorting is stable, a missing
  field reads as null, and comparison, aggregate and window functions are parameters. The passes are
  proved to keep that sequence (`NormalizeJoins`, `PushdownPredicates`, `OptimizeFilters`), and traced
  column origins to be true of every row (`ColumnOrigins`) and all that there are (`OriginsComplete`).
  `EarlyMatchFound` says which filter is lifted, and `EarlyMatchLimits` for paginations, windows,
  self-joins and dotted field names exactly when lifting it past them is harmless. Full joins
  never reach a pipeline (crates/mongodb-agent-common/src/relational/pipeline_builder.rs:860).
- **Schemas from samples.** `TypeUnification` proves unification to be the least upper bound of an order
  defined on its own, `Aligning` and `ObjectTypes` lift that to object types and to environments of them,
  and `Sampling` proves that the schema does not depend on the order or the repetition of documents and
  says exactly when a sampled document inhabits it; `SamplePlaces` tells that, and which fields are
  nullable, from the sample, and `SamplingLimits` does so for type names that clash. `ScalarValues` says
  which values each scalar type has.
- **Native query types.** `PipelineTypeContexts` is the mutable context of type variables; every method
  says exactly when its graph of references stays acyclic, on which the termination of the occurs check rests.
  `ExpressionTyping` states which constraints type an expression and `AggregationExpressions` infers them.
  `ExpressionRuns` states what a run does, and `RunOutcomes`, `InputConditions` and `InferenceLimits` derive
  from it which inputs close a cycle. `ExpressionValues` says what expressions evaluate to, `TypeSoundness`
  and `TypeSoundnessLimits` when that has the inferred type, and `InferenceErrors` which error is reported.
  `PruneObjectTypes` drops and renames object types, and says when what types unfold to stays the same.
- **Printers and compilers.** Type annotations (`TypeAnnotations`, `AnnotationGrammar`), LIKE patterns
  (`LikePatterns`, `LikeExpressions`), decimals (`DecimalStrings`), column references (`ColumnRefs`) and
  variable names (`VariableNames`).

`dafny verify dfyconfig.toml` checks the whole project.

## Claims that hold only in part

In these cases the code does not always do what it is meant or documented to do. The model follows the
code and proves exactly when the claim holds.

- Variable names are documented to be distinct for distinct inputs. `A` and `v_A` get the same one;
  `VariableCollision` says exactly which names do.
- Patterns that are not literal are meant to be translated at run time. The emitted expression has no value
  for any of them, as the bare string `$` in it is read as a field path (`EmittedHasNoValue`, `BareExact`).
  With quoted constants it would match as LIKE demands except that backslashes do not escape; `QuotedExact`
  says exactly when. On strings with newlines even literal patterns are not matched as LIKE demands, as `.`
  excludes a newline and `$` matches before one at the end; `NewlineFreeExact` says that only those strings
  are affected.
- Printed types are said to parse back. An object type whose name starts with a scalar type's name, such
  as `interval`, is read as that scalar; `AnnotationRoundTrip` is exact.
- The extracted early match is meant to run ahead of the whole pipeline. Extraction also passes paginations and
  windows, takes columns of a self-joined right side for those of the left one, and reads a dotted field name as
  a path; `PaginationExact`, `WindowExact`, `SelfJoinExact` and `DottedFieldExact` say when that is harmless.
- Tracing looks at the first branch of a union only, and joins names with dots; `UnionOriginExact` and
  `FieldOriginExact` say when the traced origins are true.
- A document field whose name is made of one or two groups of digits can give a nested type the name
  reserved for the enclosing one, and an annotation can name the type that is being made. Either closes a
  reference cycle, as runs on `{1: {}}` and `{x: "{{ p | T! }}"}` do; `PlainInputExact` and
  `AnnotationRunExact` say when.
- Inferred types are meant to be those of the values. An array expression is typed as the union of its elements,
  an undefined value as null, an element of an array as the hint if there is one, a trigonometric operator as a
  double unless its operand's type shows that it is decimal, splitting as never null, and arithmetic as the type
  of its operands, which is not that of a quotient of integers; an operand whose type leads to the type variable
  of the operands does not count. `TypeSound` holds without these; `LiteralExact`, `TrigonometryExact`,
  `ElementExact`, `SplittingExact` and `ArithmeticExact` say exactly when they do harm, and `HintedElementFails`
  is a sum of a double and an integer that is typed as an integer.
- An undefined value that meets a type other than undefined or extended JSON does not inhabit it
  (`SampleExact`, `NeighbourExact`), and documents whose generated type names collide need not inhabit
  their types either (`ClashExact`): documents at `a.b` and at `a_b` share one.
- Pruning keeps what reference types mean, unless a required type that shares the name of an existing one is
  renamed, as `SharedNamePruned` says of an added and an existing `T_1`; `StructureExact` says when.

## Model

| member | source | states |
|---|---|---|
| NormalizeJoins.NormalizePreservesRows | crates/mongodb-agent-common/src/relational/normalize_joins.rs:15-128 | For every database and every arity-consistent tree, the tree without right joins has the same rows in the same order: unmatched rows keep their null padding, and swapped columns return to their places |
| NormalizeJoins.NormalizeShape | crates/mongodb-agent-common/src/relational/normalize_joins.rs:15-169 | No right, right-semi or right-anti join is left anywhere; the column count and arity consistency do not change |
| NormalizeJoins.NormalizeFixedPoint | crates/mongodb-agent-common/src/relational/normalize_joins.rs:15-128 | The pass leaves a tree unchanged exactly if it has no right joins, so a second pass changes nothing |
| NormalizeJoins.RowWidth | crates/mongodb-agent-common/src/relational/normalize_joins.rs:131-169 | Every row of an arity-consistent tree is as wide as the column count says |
| NormalizeJoins.SwapRightJoin | crates/mongodb-agent-common/src/relational/normalize_joins.rs:34-71 | A right join equals the reordered left join of the swapped inputs with swapped keys, as row sequences |
| NormalizeJoins.SwapSemiJoin | crates/mongodb-agent-common/src/relational/normalize_joins.rs:34-63 | Right semi and anti joins equal their left counterparts on swapped inputs, as row sequences |
| NormalizeJoins.ReorderColumns | crates/mongodb-agent-common/src/relational/normalize_joins.rs:193-208 | The two counting loops yield the column references that turn every row with the right columns first into one with the left columns first |
| ColumnOrigins.ColumnProvenance | crates/mongodb-agent-common/src/relational/column_origin.rs:55-182 | In every row of a tree whose unions are traceable, a column traced to a collection and path holds the value at that path in some document of that collection, or a null where a join pads the column |
| ColumnOrigins.ExprProvenance | crates/mongodb-agent-common/src/relational/column_origin.rs:163-182 | The same for expressions over a row: column references and chains of nested field accesses |
| OriginsComplete.TraceExact | crates/mongodb-agent-common/src/relational/column_origin.rs:55-182 | A column of any tree with undotted field names is traced to a field exactly if, with nothing filtered away and with the first branch of every union, it shows that field or a null on all databases and under all orders of values, and is not null on all of them; so every origin that there is is found |
| ColumnOrigins.UnionOriginExact | crates/mongodb-agent-common/src/relational/column_origin.rs:147-155 | The traced origins of a union of leaves hold on every database exactly if all leaves read the same fields of the same collection |
| ColumnOrigins.FieldOriginExact | crates/mongodb-agent-common/src/relational/column_origin.rs:168-178 | The traced origin of nested field accesses on a leaf's column holds on every database exactly if no accessed name has a dot, or the column does not exist |
| PushdownPredicates.PushdownPreservesRows | crates/mongodb-agent-common/src/relational/pushdown_predicates.rs:26-141 | Moving filters and sorts below projections leaves the row sequence unchanged, for every tree and database |
| PushdownPredicates.PushdownShape | crates/mongodb-agent-common/src/relational/pushdown_predicates.rs:26-141 | The pass keeps the column count and arity consistency and introduces no right join |
| PushdownPredicates.PushdownFixedPoint | crates/mongodb-agent-common/src/relational/pushdown_predicates.rs:26-141 | The pass leaves a tree unchanged exactly if no filter or sort directly above a projection can be remapped; applying it twice is applying it once |
| PushdownPredicates.RemapExact | crates/mongodb-agent-common/src/relational/pushdown_predicates.rs:187-285 | A condition can be remapped exactly if every column it reads is projected from a plain field, and it applies none of the other operators |
| PushdownPredicates.RemapSortExact | crates/mongodb-agent-common/src/relational/pushdown_predicates.rs:160-172 | Sort keys can be remapped exactly if each of them can |
| PushdownPredicates.RemapEval | crates/mongodb-agent-common/src/relational/pushdown_predicates.rs:187-285 | A remapped expression has the value on an input row that the expression has on the projected row |
| PushdownPredicates.FilterProject | crates/mongodb-agent-common/src/relational/pushdown_predicates.rs:148-153 | Filtering projected rows is projecting the rows that the remapped condition keeps |
| PushdownPredicates.SortProject | crates/mongodb-agent-common/src/relational/pushdown_predicates.rs:160-172 | Stable sorting commutes with a projection through remapped sort keys |
| OptimizeFilters.EarlyMatchSound | crates/mongodb-agent-common/src/relational/optimize_filters.rs:57-142 | Restricting the leftmost collection's documents to those that satisfy the extracted query leaves the rows of the whole tree unchanged, if the lifted condition passes down to the root leaf; self-joins included |
| OptimizeFilters.LiftFilter | crates/mongodb-agent-common/src/relational/optimize_filters.rs:95-142 | A filter over a tree that its condition passes equals the tree over the matching documents: through filters, sorts, projections, group keys and the left side of joins |
| OptimizeFilters.LeafQuery | crates/mongodb-agent-common/src/relational/optimize_filters.rs:95-171 | On a collection leaf the condition holds of a row exactly if the document satisfies the query document made of it |
| OptimizeFilters.TraceAgrees | crates/mongodb-agent-common/src/relational/optimize_filters.rs:180-200 | An expression has a path in the root collection exactly if its traced origin is a field of that collection, namely that path |
| OptimizeFilters.FilterSort | crates/mongodb-agent-common/src/relational/optimize_filters.rs:57-90 | A filter commutes with a stable sort under an order that is total and transitive |
| OptimizeFilters.FilterJoinLeft | crates/mongodb-agent-common/src/relational/optimize_filters.rs:57-90 | A filter on left columns commutes with joins that iterate over the left rows |
| OptimizeFilters.FilterGroup | crates/mongodb-agent-common/src/relational/optimize_filters.rs:57-90 | A filter on group keys commutes with grouping through the key expressions |
| OptimizeFilters.PassesPreserveRows | crates/mongodb-agent-common/src/relational/optimize_filters.rs:57-90 | Normalizing joins, pushing predicates down and prepending the early match, one after the other, keep the rows of the original tree |
| EarlyMatchFound.EarlyMatchExact | crates/mongodb-agent-common/src/relational/optimize_filters.rs:57-90 | An early match is found exactly if some filter on the spine of first inputs has a translatable condition, and it is the query of the outermost of these |
| EarlyMatchFound.QueryExact | crates/mongodb-agent-common/src/relational/optimize_filters.rs:95-142 | A query document is made exactly of the combinations, by conjunction and disjunction, of null tests and of comparisons with plain literals, all of fields traced to the root collection |
| EarlyMatchFound.QueryMeans | crates/mongodb-agent-common/src/relational/optimize_filters.rs:95-171 | A document satisfies the query exactly if the condition holds of its fields at the places that the columns are traced to, over any tree with traceable unions and undotted names |
| EarlyMatchLimits.PaginationExact | crates/mongodb-agent-common/src/relational/optimize_filters.rs:57-90 | Over a page of a collection, and for every condition that some document meets and some does not, the match is harmless exactly if the pagination keeps all rows or none |
| EarlyMatchLimits.WindowExact | crates/mongodb-agent-common/src/relational/optimize_filters.rs:57-90 | Over a window of a collection the match is harmless exactly if no window function depends, at a document the filter keeps, on a single document that it drops |
| EarlyMatchLimits.SelfJoinExact | crates/mongodb-agent-common/src/relational/optimize_filters.rs:145-171 | Over a collection joined to itself without join conditions, and for a condition on columns of one side that some document meets and some does not, the match is harmless exactly if that is the left side |
| EarlyMatchLimits.DottedFieldExact | crates/mongodb-agent-common/src/relational/optimize_filters.rs:180-200 | For a comparison of a nested field that tells some value from null, the match is harmless exactly if the field's name has no dot |
| Values.DottedNameExact | crates/mongodb-agent-common/src/relational/optimize_filters.rs:180-200 | Appending a name to a path reads the field of that name, in every value and for every path, exactly if the name has no dot |
| BsonScalars.SupertypeIsOrder | crates/mongodb-support/src/bson_type.rs:320-341 | The supertype test is the reflexive order with integers below doubles and UUIDs below binary data |
| BsonScalars.CommonSupertypeLeast | crates/mongodb-support/src/bson_type.rs:327-341 | The common supertype is the least upper bound in that order, and is missing exactly where there is no upper bound |
| ScalarValues.InhabitsExact | crates/cli/src/introspection/sampling.rs:284-345 | Told type by type, the values of a scalar type are those whose own type is below it |
| ScalarValues.ScalarBelowExact | crates/mongodb-support/src/bson_type.rs:320-341 | One scalar type is below another exactly if all its values are values of that one |
| SchemaTypes.NormalizeNormal | crates/configuration/src/schema/mod.rs:54-68 | Normalizing removes every redundant nullable layer and leaves exactly the normal types unchanged |
| SchemaTypes.NormalizeNullable | crates/configuration/src/schema/mod.rs:54-77 | Wrapping in nullable and then normalizing is normalizing and then making nullable |
| TypeUnification.UnifyIsLub | crates/cli/src/introspection/type_unification.rs:22-96 | Unification is the least upper bound: it is below a type exactly if both arguments are, in an order defined without it |
| TypeUnification.UnifyUpper | crates/cli/src/introspection/type_unification.rs:22-96 | Both arguments are below their unification |
| TypeUnification.UnifyUnique | crates/cli/src/introspection/type_unification.rs:22-96 | Any upper bound that is below the unification is the unification, up to normalization |
| TypeUnification.UnifyAssociative | crates/cli/src/introspection/type_unification.rs:22-96 | Unification is associative on all types, normal or not |
| TypeUnification.UnifyCommutative | crates/cli/src/introspection/type_unification.rs:22-96 | Unification is commutative on all types |
| TypeUnification.UnifyIdempotent | crates/cli/src/introspection/type_unification.rs:22-96 | Unifying a type with itself normalizes it |
| TypeUnification.UnifyNormalizedArguments | crates/cli/src/introspection/type_unification.rs:22-96 | Unification cannot tell an argument from its normal form |
| TypeUnification.UnifyNormal | crates/cli/src/introspection/type_unification.rs:22-96 | Results are in normal form |
| TypeUnification.UnifyBounds | crates/cli/src/introspection/type_unification.rs:24-32 | Undefined is the unit of unification, and extended JSON absorbs everything |
| TypeUnification.MakeNullableIsUnify | crates/cli/src/introspection/type_unification.rs:98-106 | Making a type nullable is unifying it with the nullable bottom type |
| Aligning.Align | crates/mongodb-support/src/align.rs:4-30 | The keyed merge: the result holds both maps' entries under the three functions, with the keys of the first map in front |
| ObjectTypes.UnifyObjectType | crates/cli/src/introspection/type_unification.rs:110-162 | The merge of two object types by aligned fields is the pointwise unification with missing fields made nullable |
| ObjectTypes.UnifyObjectTypes | crates/cli/src/introspection/type_unification.rs:167-189 | The merge of two lists of object types is the pointwise unification of the maps they stand for |
| ObjectTypes.UnifiedField | crates/cli/src/introspection/type_unification.rs:110-162 | A missing field behaves as the nullable bottom type: the unified object has the unified field types everywhere |
| ObjectTypes.UnifyObjectsIsLub | crates/cli/src/introspection/type_unification.rs:110-147 | Unifying object types is the least upper bound of the pointwise order |
| ObjectTypes.UnifyEnvsIsLub | crates/cli/src/introspection/type_unification.rs:167-189 | Unifying object type environments is the least upper bound |
| ObjectTypes.UnifyEnvsAssociative | crates/cli/src/introspection/type_unification.rs:167-189 | It is associative |
| ObjectTypes.UnifyEnvsCommutative | crates/cli/src/introspection/type_unification.rs:167-189 | It is commutative |
| ObjectTypes.UnifyEnvsIdempotent | crates/cli/src/introspection/type_unification.rs:167-189 | It is idempotent |
| Sampling.MakeFieldType | crates/cli/src/introspection/sampling.rs:284-345 | The loop over array elements yields the unified element type and the unified environment of nested object types |
| Sampling.MakeObjectType | crates/cli/src/introspection/sampling.rs:209-269 | The object types of a document: its fields' types, nullable as asked, and the nested object types |
| Sampling.SampleSchema | crates/cli/src/introspection/sampling.rs:163-207 | The fold over documents yields the unified environment, and nothing for no documents |
| Sampling.SampledEnvIsLub | crates/cli/src/introspection/sampling.rs:181-207 | The sampled schema is below an environment exactly if the schema of every document is |
| Sampling.SamplingOrderIndependent | crates/cli/src/introspection/sampling.rs:181-207 | Two lists with the same documents, in any order and multiplicity, give the same schema |
| SamplePlaces.SampleExact | crates/cli/src/introspection/sampling.rs:163-345 | Told from the sample, if the type names in no document clash: a document inhabits the inferred collection type exactly if each of its undefined values is at a place where all documents hold undefined values only, or where, there or further out, their values unify to extended JSON |
| SamplePlaces.SampleGathers | crates/cli/src/introspection/sampling.rs:181-269 | If no type names clash, each inferred object type has exactly the fields of the documents of that type name, each with the union of the values held there, made nullable exactly if some of the documents lack it or all such fields are to be |
| SamplePlaces.SampleNullable | crates/cli/src/introspection/sampling.rs:244-269 | In a sample without clashing names a field admits null exactly if all schema is to be nullable and it is not the `_id` of the collection type, or some document of the type lacks it or holds null in it, or its values have no common type |
| SamplePlaces.TypeOfExact | crates/cli/src/introspection/sampling.rs:284-345 | The types above the one inferred for a value are exactly the types the value fits, so the inferred type is the least |
| SamplePlaces.UnionExact | crates/cli/src/introspection/sampling.rs:295-309 | The union of values is extended JSON exactly if no other type is above the types of them all |
| Sampling.SamplingExact | crates/cli/src/introspection/sampling.rs:163-345 | A sampled document whose generated type names do not clash inhabits the inferred collection type in the inferred environment exactly if every undefined value in it meets a type that admits undefined values; for both nullability settings |
| Sampling.SamplingSound | crates/cli/src/introspection/sampling.rs:163-345 | Hence every such document without undefined values inhabits it |
| Sampling.NoUnderscoresNoClash | crates/cli/src/introspection/sampling.rs:244-269 | Field names without underscores never make generated type names clash |
| Sampling.HasTypeMonotone | crates/cli/src/introspection/sampling.rs:181-195 | Larger types in larger environments keep their inhabitants |
| SamplingLimits.NeighbourExact | crates/cli/src/introspection/sampling.rs:294-310 | A leaf next to any proper value in an array of a sampled document: the document inhabits the inferred type exactly if the leaf is not undefined |
| SamplingLimits.ClashExact | crates/cli/src/introspection/sampling.rs:209-269 | For two paths of field names that part somewhere: the documents along them inhabit the types sampled from them, whatever leaf fields they end in, exactly if no document on one path gets the type name of one on the other; for both nullability settings |
| SamplingLimits.UnderscoreCollides | crates/cli/src/introspection/sampling.rs:215-248 | Documents at the paths a.b and at a_b share a type, and some of them do not inhabit it |
| TypeNames.UniqueTypeName | crates/cli/src/native_query/helpers.rs:32-59 | The loop terminates with the first free name: the root, or the first free number after the parsed counter; it is in neither map |
| TypeNames.UniqueNameDetermined | crates/cli/src/native_query/helpers.rs:32-59 | There is only one first free name |
| TypeNames.SuffixExact | crates/cli/src/native_query/helpers.rs:47-58 | A name has another root exactly if it is that root, an underscore, and digits for a 32-bit counter |
| Decimals.DecimalRoundTrip | crates/cli/src/native_query/helpers.rs:38-59 | Counters that are printed and parsed come back |
| PruneObjectTypes.PruneObjectTypes | crates/cli/src/native_query/prune_object_types.rs:13-39 | Pruning fails exactly if something unknown is reachable; otherwise each reference type unfolds as before, to every depth, exactly if no required type that shares the name of an existing one was renamed, which for plainly named types is told from the input, and then the result is the reachable added types under an injective renaming without dangling references |
| PruneObjectTypes.CollectNamesFromType | crates/cli/src/native_query/prune_object_types.rs:41-84 | The names found grow by exactly what is reachable from the type, or an unknown reachable name is reported |
| PruneObjectTypes.CollectNamesFromObjectType | crates/cli/src/native_query/prune_object_types.rs:86-107 | The same for the fields of a named object type |
| PruneObjectTypes.SimplifyTypeName | crates/cli/src/native_query/prune_object_types.rs:118-129 | A name is replaced by the unique name for its root if that has a smaller counter, in the reference types and in all object types |
| PruneObjectTypes.SimplifyTypeNames | crates/cli/src/native_query/prune_object_types.rs:111-131 | In any order, the names are simplified one after the other; unless a name shared with an existing type is renamed, the result is an injective renaming that never raises a counter, and a shared name that is renamed is mentioned nowhere afterwards |
| PruneObjectTypes.RenameObjectType | crates/cli/src/native_query/prune_object_types.rs:133-210 | The loop renames one object type everywhere |
| PruneObjectTypes.UnfoldRenamed | crates/cli/src/native_query/prune_object_types.rs:133-210 | An injective renaming changes no unfolding, to any depth |
| PruneObjectTypes.LostChangesStructure | crates/cli/src/native_query/prune_object_types.rs:118-129 | Renaming a required type that shares the name of an existing one changes what some reference type unfolds to |
| PruneObjectTypes.StructureExact | crates/cli/src/native_query/prune_object_types.rs:13-131 | Told from the input, for shared names whose roots have no counter: pruning keeps what the reference types mean, in whatever order the names are simplified, exactly if at the start the guard of the renaming holds for no required type that shares the name of an existing one |
| PruneObjectTypes.SharedKeptExact | crates/cli/src/native_query/prune_object_types.rs:111-131 | In every order all shared names are kept exactly if at the start the unique name for the root of none of them has a smaller counter |
| PruneObjectTypes.ShrinkingLost | crates/cli/src/native_query/prune_object_types.rs:118-129 | Whatever the roots, a shared name for which the guard holds at the start is lost in some order |
| PruneObjectTypes.BlockedStays | crates/cli/src/native_query/prune_object_types.rs:118-129 | Whatever its root, a name whose smaller candidates are all names of existing types is never renamed |
| PruneObjectTypes.SharedNamePruned | crates/cli/src/native_query/prune_object_types.rs:111-131 | Pruning with a reference to an existing type, and an added type of that name with a counter that can be dropped, changes what the reference unfolds to |
| PruneObjectTypes.UnfoldKept | crates/cli/src/native_query/prune_object_types.rs:27-30 | Dropping types outside a self-contained set of names changes no unfolding |
| ConstraintGraphs.ReferencesExact | crates/cli/src/native_query/pipeline_type_context.rs:201-254 | On an acyclic graph the occurs check finds exactly the variables that references lead to; its recursion terminates because ranks decrease |
| ConstraintGraphs.AddConstraints | crates/cli/src/native_query/pipeline_type_context.rs:189-199 | With more constraints on a variable an acyclic graph stays acyclic exactly if none of them leads to the variable |
| ConstraintGraphs.ReplaceExact | crates/cli/src/native_query/pipeline_type_context.rs:177-279 | An acyclic graph in which one node, present or not and referred to or not, gets new constraints stays acyclic exactly if none of them leads back to the node |
| ConstraintGraphs.InsertObject | crates/cli/src/native_query/pipeline_type_context.rs:256-258 | An acyclic graph into which an object type is inserted, maybe in place of another and maybe referred to already, stays acyclic exactly if no field leads back to the name |
| ConstraintGraphs.RankedAcyclic | crates/cli/src/native_query/pipeline_type_context.rs:201-254 | A ranking that decreases along references excludes cyclic paths of any length |
| TypeConstraints.FromTypeRefs | crates/cli/src/native_query/type_constraint.rs:319-332 | An annotation turned into a constraint refers to exactly the object types that it names |
| PipelineTypeContexts.PipelineTypeContext.constructor | crates/cli/src/native_query/pipeline_type_context.rs:53-72 | A new context is valid; its input is the collection's document type, if any |
| PipelineTypeContexts.PipelineTypeContext.NewTypeVariable | crates/cli/src/native_query/pipeline_type_context.rs:177-187 | A new variable with the constraints and nothing else; in a valid context it is fresh, and with known constraints the context stays valid |
| PipelineTypeContexts.PipelineTypeContext.SetTypeVariableConstraint | crates/cli/src/native_query/pipeline_type_context.rs:189-199 | One more constraint on the variable and nothing else; from a valid context the graph stays acyclic exactly if the constraint does not lead to the variable |
| PipelineTypeContexts.PipelineTypeContext.ConstraintReferencesVariable | crates/cli/src/native_query/pipeline_type_context.rs:201-254 | True exactly if some path of references leads from the constraint to the variable |
| PipelineTypeContexts.PipelineTypeContext.InsertObjectType | crates/cli/src/native_query/pipeline_type_context.rs:256-258 | The object type is stored under the name, over what was there; from a valid context the graph stays acyclic exactly if no field leads back to the name |
| PipelineTypeContexts.PipelineTypeContext.RegisterParameter | crates/cli/src/native_query/pipeline_type_context.rs:263-279 | The parameter's variable, new if the name is, gains exactly the given constraints, whatever they are; from a valid context the graph stays acyclic exactly if none of them leads to the variable |
| PipelineTypeContexts.PipelineTypeContext.UniqueName | crates/cli/src/native_query/pipeline_type_context.rs:281-287 | The first free name with respect to the configured and the generated object types |
| PipelineTypeContexts.PipelineTypeContext.SetStageDocType | crates/cli/src/native_query/pipeline_type_context.rs:289-293 | The stage's document type becomes a new variable and the input; the graph stays acyclic |
| PipelineTypeContexts.NestedNames | crates/cli/src/native_query/aggregation_expression.rs:314-331 | Names generated for the fields of a document never take the name reserved for the document, if no field name looks like a counter |
| PipelineTypeContexts.HintStays | crates/cli/src/native_query/aggregation_expression.rs:280-291 | Variables in use as hints stay without outgoing references while inference extends the context |
| ExpressionTyping.TypedRegisters | crates/cli/src/native_query/aggregation_expression.rs:137-138 | Every native query variable that inference comes across in a typed expression is a registered parameter |
| ExpressionTyping.TypedStays | crates/cli/src/native_query/aggregation_expression.rs:271-371 | What is a type of an expression stays one when the context grows |
| AggregationExpressions.InferType | crates/cli/src/native_query/aggregation_expression.rs:16-52 | For admissible expressions the context stays valid, hence acyclic; it is only extended, new parameters are among those mentioned and new names lie under the given one; the result types the expression in the declarative typing relation, or is the first error the expression has. Expressions without operators and arrays are inferred in every context, as their run says |
| AggregationExpressions.InferElements | crates/cli/src/native_query/aggregation_expression.rs:54-100 | The same for the elements of an array, in order, up to the first error |
| AggregationExpressions.InferArray | crates/cli/src/native_query/aggregation_expression.rs:77-100 | An array has the union of its elements' types, inferred with the element's part of the hint |
| AggregationExpressions.InferTuple | crates/cli/src/native_query/aggregation_expression.rs:54-75 | Tuples are typed element by element; anything but an array is an error |
| AggregationExpressions.InferExpressionDocument | crates/cli/src/native_query/aggregation_expression.rs:102-128 | One operator decides what a document means, several are an error, and none makes it a plain document |
| AggregationExpressions.InferOperator | crates/cli/src/native_query/aggregation_expression.rs:130-250 | The result and operand types of every operator, as the typing relation states them |
| AggregationExpressions.InferElementAt | crates/cli/src/native_query/aggregation_expression.rs:219-237 | Element access yields the hint or the array's element type, made nullable, after typing both operands |
| AggregationExpressions.InferHomogeneous | crates/cli/src/native_query/aggregation_expression.rs:271-299 | Both operands share a fresh invariant variable; it gets the operator's constraint and the type of each operand that does not lead back to it, and nothing else |
| AggregationExpressions.InferDocument | crates/cli/src/native_query/aggregation_expression.rs:309-331 | A plain document gets an object type with its fields under the first name that was free before its fields were inferred |
| AggregationExpressions.InferFields | crates/cli/src/native_query/aggregation_expression.rs:315-328 | The types of the fields in order, each inferred at the type name extended by the field's name; the name reserved for the document stays free if no counter-like field holds a document |
| AggregationExpressions.InferReference | crates/cli/src/native_query/aggregation_expression.rs:333-372 | Parameters gain the hint and the annotation, fields refer to the input, plain strings make their variables strings, and pipeline variables are errors |
| TypeSoundness.TypeSound | crates/cli/src/native_query/aggregation_expression.rs:16-372 | In every solution of a state, the value of an expression has the type the expression is typed with, if arithmetic keeps to the types of its operands and the expression is covered: its value depends on no array expression, undefined value, element typed by a hint, and so on; evaluation is defined operator by operator and apart from typing |
| TypeSoundness.InferenceSound | crates/cli/src/native_query/aggregation_expression.rs:16-372 | So inference returns a type for every expression that has a value, and for a covered one a type that the value has |
| TypeSoundness.ValueTyped | crates/cli/src/native_query/aggregation_expression.rs:130-299 | With an input document, no expression that has a value is rejected: all operators that evaluation knows are supported, on all operands they work on |
| TypeSoundness.TrigonometryExact | crates/cli/src/native_query/aggregation_expression.rs:301-305 | The type of a trigonometric operator holds of all values of its operand's type exactly if that type is, or but for null is, decimal, or else has no decimals, and no null that a union does not show |
| TypeSoundness.MeansNumeric | crates/cli/src/native_query/type_constraint.rs:250-264 | The numeric constraint means exactly the four kinds of numbers |
| TypeSoundness.MeansComparable | crates/cli/src/native_query/type_constraint.rs:250-260 | The comparable constraint means all scalars but regular expressions and code |
| TypeSoundness.MeansNullable | crates/cli/src/native_query/type_constraint.rs:186-192 | A constraint made nullable means null and what it meant |
| TypeSoundness.AnnotationMeans | crates/cli/src/native_query/type_constraint.rs:318-333 | An annotation turned into a constraint means the values of the annotated type |
| TypeSoundnessLimits.ArithmeticExact | crates/cli/src/native_query/aggregation_expression.rs:156-162 | The types of all covered expressions hold of their values exactly if arithmetic on two numbers yields a number of the type of one of them |
| TypeSoundnessLimits.LiteralExact | crates/cli/src/native_query/aggregation_expression.rs:77-100 | The type inferred for a literal of scalars, strings, arrays and documents holds of its value exactly if it has no array and no undefined value anywhere |
| TypeSoundnessLimits.ElementExact | crates/cli/src/native_query/aggregation_expression.rs:219-237 | The type of an array element holds of all elements of arrays of the array's type exactly if there is no hint, or every such element is null or bears it |
| TypeSoundnessLimits.SplittingExact | crates/cli/src/native_query/aggregation_expression.rs:238-247 | The type of a split text holds exactly if neither the text's nor the separator's type has null |
| TypeSoundnessLimits.HintedElementFails | crates/cli/src/native_query/aggregation_expression.rs:219-237 | The sum of the first element of an array of doubles and an integer is typed as an integer |
| TypeSoundnessLimits.ParameterAsArgument | crates/cli/src/native_query/aggregation_expression.rs:141-218 | A parameter that is the argument of an operator is, by the operator's name, a number, a boolean, or an array of booleans |
| TypeSoundnessLimits.ParameterAsOperand | crates/cli/src/native_query/aggregation_expression.rs:156-248 | One of several operands is a number, comparable, a string, or an integer index |
| TypeSoundnessLimits.ParameterAsElement | crates/cli/src/native_query/aggregation_expression.rs:83-98 | A parameter in an array is what the hint for the array allows in it |
| TypeSoundnessLimits.ParameterAnnotated | crates/cli/src/native_query/aggregation_expression.rs:340-348 | An annotated parameter has values of its annotated type only |
| TypeSoundnessLimits.ParameterInString | crates/cli/src/native_query/aggregation_expression.rs:362-369 | A parameter that is part of a string is a string |
| InferenceErrors.FirstErrorExact | crates/cli/src/native_query/aggregation_expression.rs:16-372 | The error of inference is the fault of the first faulty part of the expression in the order of visits, and there is none if no part is faulty; faults are told from each part alone |
| InferenceErrors.KindsExact | crates/cli/src/native_query/aggregation_expression.rs:139-249 | The supported operators are the listed names, grouped by how many operands they take |
| InferenceLimits.ValidAcyclic | crates/cli/src/native_query/pipeline_type_context.rs:201-254 | In a valid context no path of references returns to where it started |
| InferenceLimits.NestedClash | crates/cli/src/native_query/aggregation_expression.rs:314-331 | A nested document's type takes the name reserved for the enclosing document exactly if its desired name parses to that name |
| InputConditions.PlainInputExact | crates/cli/src/native_query/aggregation_expression.rs:309-331 | Told from the expression: after inferring one without operators and arrays from a consistent state, with annotations that name configured types, the graph is acyclic exactly if nowhere in it a nested document's type name is parsed to the name reserved for an enclosing document, at any depth |
| RunOutcomes.PlainRunExact | crates/cli/src/native_query/aggregation_expression.rs:309-331 | After inferring an expression without operators and arrays from a consistent state, with annotations that name configured types, the graph is acyclic exactly if each of its documents has got an object type of its own |
| RunOutcomes.RunGrows | crates/cli/src/native_query/aggregation_expression.rs:309-331 | From any state such a run forgets nothing that was there, and adds at most one object type per document |
| InferenceLimits.NestedRunExact | crates/cli/src/native_query/aggregation_expression.rs:314-331 | An empty document in a field of a document: the graph stays acyclic exactly if the nested type name is not parsed to the name reserved for the document |
| InferenceLimits.InferDigitField | crates/cli/src/native_query/aggregation_expression.rs:314-331 | A run on {1: {}} ends in a cyclic graph |
| InferenceLimits.InferGrandchildField | crates/cli/src/native_query/aggregation_expression.rs:314-331 | A run on {2: {0: {}}} with the same names taken hits the name reserved for the outermost document |
| InferenceLimits.InferTwoGroupField | crates/cli/src/native_query/aggregation_expression.rs:314-331 | So does a run on {2_0: {}} where the root name and the first numbered one are taken |
| InferenceLimits.AnnotationRunExact | crates/cli/src/native_query/aggregation_expression.rs:340-348 | An annotated parameter in a field of a document: the graph stays acyclic exactly if the annotation does not mention the document's type and does not lead to the parameter already |
| InferenceLimits.InferAnnotatedField | crates/cli/src/native_query/aggregation_expression.rs:340-348 | A run on {x: "{{ p | T! }}"} at the type name T ends in a cyclic graph |
| TypeAnnotations.AnnotationRoundTrip | crates/cli/src/native_query/type_annotation.rs:20-121 | Parsing a printed type gives it back with the rest of the input, exactly if it is normal, its object type names are identifiers, and no object's name starts with a scalar type's name or extendedJSON |
| TypeAnnotations.TypeExpression | crates/cli/src/native_query/type_annotation.rs:20-100 | Whatever parses is a normal type with identifiers as names |
| AnnotationGrammar.ParsesExactly | crates/cli/src/native_query/type_annotation.rs:20-121 | Text followed by what cannot belong to it is parsed as a type exactly if it denotes the type in a grammar of words, names, brackets, predicates, blanks and the suffix `!`, which is told from the text alone |
| TypeAnnotations.FirstScalarExact | crates/cli/src/native_query/type_annotation.rs:35-43 | With longer names tried first, a printed scalar name is read as that scalar |
| TypeAnnotations.CoreRoundTrip | crates/configuration/src/schema/mod.rs:137-157 | The printed form without the suffix is parsed back, or if an object's name is a keyword, into something that cannot become the type |
| TypeAnnotations.IntervalDoesNotParse | crates/cli/src/native_query/type_annotation.rs:35-43 | An object type named interval does not come back |
| LikePatterns.SqlLikeToRegex | crates/mongodb-agent-common/src/relational/expression.rs:1528-1564 | The loop's text parses, as an anchored regular expression, into the items of the pattern, and on every string without newlines it matches exactly if the pattern does |
| LikePatterns.LikeCorrect | crates/mongodb-agent-common/src/relational/expression.rs:1522-1553 | The matcher of the regular expression agrees with the definition of LIKE by partitions of the string (section 8.5 of ISO/IEC 9075-2) |
| LikePatterns.NewlineFreeExact | crates/mongodb-agent-common/src/relational/expression.rs:1522-1553 | The strings on which all patterns are compiled rightly are exactly those without newlines |
| LikePatterns.MetaExact | crates/mongodb-agent-common/src/relational/expression.rs:1555-1564 | The characters that are escaped are exactly those that regular expressions do not take as themselves |
| LikeExpressions.TranslateLikePattern | crates/mongodb-agent-common/src/relational/expression.rs:1571-1616 | A literal pattern becomes the compiled string, any other the `$concat` of bare anchors around the chain of `$replaceAll` over its expression |
| LikeExpressions.ChainReplaceAll | crates/mongodb-agent-common/src/relational/expression.rs:1619-1631 | The loop nests one `$replaceAll` in the next, the first innermost, with bare strings to find and to put in |
| LikeExpressions.EmittedHasNoValue | crates/mongodb-agent-common/src/relational/expression.rs:1588-1616 | The expression emitted for a pattern that is not literal has no value, for every pattern and every document: the bare string `$` is no field path |
| LikeExpressions.HasValueExact | crates/mongodb-agent-common/src/relational/expression.rs:1588-1631 | However constants are put in, such an expression has a value exactly if the pattern and every constant evaluate to a string or null |
| LikeExpressions.BareExact | crates/mongodb-agent-common/src/relational/expression.rs:1588-1631 | With bare constants such an expression has the intended text as its value, for all patterns and documents, exactly if no anchor, searched string or replacement starts with a dollar sign |
| LikeExpressions.QuotedIntended | crates/mongodb-agent-common/src/relational/expression.rs:1588-1631 | With constants quoted by `$literal` it always has |
| LikeExpressions.QuotedExact | crates/mongodb-agent-common/src/relational/expression.rs:1588-1616 | With quoted constants the expression's value matches every string without newlines as LIKE demands exactly if no backslash in the pattern's value escapes anything, or that value holds a newline and neither matches any of them |
| LikeExpressions.LiteralTranslation | crates/mongodb-agent-common/src/relational/expression.rs:1575-1581 | A literal pattern is translated to a string that evaluates to itself and matches every string without newlines as LIKE demands |
| LikePatterns.ChainCharacter | crates/mongodb-agent-common/src/relational/expression.rs:1593-1613 | As passes over text, what the expression computes once its constants are quoted, the sixteen replacements turn each character into its escape or the text of its wildcard |
| LikePatterns.DynamicAgrees | crates/mongodb-agent-common/src/relational/expression.rs:1593-1615 | The text after the passes is that of the literal translation exactly if no backslash escapes anything |
| LikePatterns.DynamicExact | crates/mongodb-agent-common/src/relational/expression.rs:1593-1615 | The text after the passes, as a regular expression, matches every string without newlines as LIKE does exactly if no backslash escapes anything, or the pattern holds a newline and neither matches any of them |
| DecimalStrings.DecimalStringExact | crates/mongodb-agent-common/src/relational/expression.rs:1101-1137 | The text denotes value * 10^(-scale), for every value and scale |
| DecimalStrings.DecimalStringDenotes | crates/mongodb-agent-common/src/relational/expression.rs:1101-1137 | Its exponent is the negated scale and its coefficient the value; a negative scale is multiplied out |
| ColumnRefs.PathEvaluates | crates/mongodb-agent-common/src/query/column_ref.rs:192-231 | The compiled expression of a path evaluates to what stepwise lookup finds, unless an empty name comes before the first unsafe one, which makes it invalid |
| ColumnRefs.NonEmptyPathEvaluates | crates/mongodb-agent-common/src/query/column_ref.rs:192-231 | Every non-empty path of non-empty names, with dots or a leading dollar sign or not, compiles to its lookup |
| ColumnRefs.VariablePathEvaluates | crates/mongodb-agent-common/src/query/column_ref.rs:97-108 | The same for paths from a pipeline variable |
| ColumnRefs.MatchKeyExact | crates/mongodb-agent-common/src/query/column_ref.rs:119-124 | A path is a match key exactly if all its names are safe, and then the key's components are the path |
| ColumnRefs.NameSafeExact | crates/mongodb-agent-common/src/mongodb/sanitize.rs:15-20 | A name is safe exactly if the dollar sign and the name read the field of that name in every document, or it is empty |
| VariableNames.EscapeInvalidVariableChars | crates/mongodb-agent-common/src/mongodb/sanitize.rs:34-53 | The loop's output has legal characters only, and decoding it gives the input back |
| VariableNames.EscapedRoundTrip | crates/mongodb-agent-common/src/mongodb/sanitize.rs:34-53 | Decoding an escaped string gives the string back, for every string |
| VariableNames.EscapedUnchanged | crates/mongodb-agent-common/src/mongodb/sanitize.rs:34-45 | Exactly the names of letters, digits, underscores and characters beyond ASCII other than the middle dot are left as they are |
| VariableNames.VariableLegal | crates/mongodb-agent-common/src/mongodb/sanitize.rs:6-13 | Variable names start with a lower-case letter and have legal characters only |
| VariableNames.VariableCollision | crates/mongodb-agent-common/src/mongodb/sanitize.rs:6-13 | Two names get one variable exactly if they are equal, or one is the other with the prefix v_ that the other gets |
| VariableNames.VariablesCollide | crates/mongodb-agent-common/src/mongodb/sanitize.rs:3-13 | The names A and v_A get the same variable |

## Left out

- OptimizeFilters.EarlyMatchSound: lifting is proved where the condition passes down to the root leaf and its field names have no dots there; of the shapes it does not pass, those directly above a collection are settled in `EarlyMatchLimits`, and deeper combinations of them are not.
- ColumnOrigins.ColumnProvenance: for traceable unions and nested field names without dots; the exact conditions are stated for unions of collections and for field accesses on a collection.
- OriginsComplete.TraceExact: for nested field names without dots, and where no union is empty; unions are looked at in their first branch, as the code does.
- EarlyMatchFound.QueryMeans: for traceable unions and names without dots, as with `ColumnProvenance`.
- Sampling.SamplingExact: for documents with distinct keys whose type names do not clash; of clashing ones, documents that fork into two paths are settled by `ClashExact`.
- AggregationExpressions.InferType: acyclicity is proved for expressions whose plain documents hold no documents under counter-like names and whose annotations name configured types, and for hints whose variables have no constraints that refer to anything; what else happens is proved for expressions without operators, in which no occurs check is made that might not end.
- TypeSoundness.TypeSound: what is required of operands that the occurs check skips is enough but not always needed; the other requirements are exact for each operator. Solving constraints is not part of this model; a solution is any assignment of sets of values that respects variance, and a constraint of which one type is meant only bounds it from above.
- TypeSoundness.ValueTyped: pipeline variables, which inference does not support, and operators other than those of the source's match have no value; what arithmetic yields is a parameter.
- AggregationExpressions.InferOperator: operators other than those of the source's match end in an error, as there; stages of native query pipelines and the type solver are not part of this model.
- PruneObjectTypes.StructureExact: for shared names whose roots have no counter, and less than 2^32 - 1 names; of names with several counters one half each is proved (`ShrinkingLost`, `BlockedStays`), and the order in which names are simplified is any, not that of the map.
- PruneObjectTypes.PruneObjectTypes: added types are assumed to be acyclic, as collection does not end otherwise.
- DecimalStrings.DecimalStringExact: the text is given its meaning as a decimal numeral; the Decimal128 parser and its range errors are not modelled, nor is the parsing of 256-bit values.
- LikePatterns.LikeCorrect: case-insensitive matching and the conversion of inputs to strings are not modelled.
- LikeExpressions.HasValueExact: an empty string to find, which does not occur, is taken to replace nothing.
- ColumnRefs.PathEvaluates: no arrays along the path.
- Group keys are compared structurally, and arrays inside documents do not occur in the relational model, so MongoDB's array-aware matching and its type bracketing are not captured.
- Arguments of collections, native queries as leaves, and the coercion of literals to object ids by the configuration.
- The translation of relations and expressions to aggregation pipelines, besides LIKE patterns and decimals.
- The parser of reference shorthand: expressions hold parsed references.
- Payloads of scalar values and descriptions of object types and fields, on which inference does not depend.
- Overflow of the 32-bit counters of type variables and type names and of 64-bit column counts.
- Object types that are kept for backward compatibility when a sampled schema is updated.
- Warnings of the type inference context.
- Database access, cursors, configuration stores and the command line.
