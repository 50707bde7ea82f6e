# Work-order knowledge graph: a verified model

This project models the core of a work-order knowledge-graph service. It covers the four stages of the service's pipeline:

1. **Ontology extraction** (`OntologyProcessor`, `ontology_processor.dfy`).
   - Input: tabular work-order rows. A row maps column name to a possibly-null cell.
   - Output: three things.
     - A duplicate-free list of typed `(label, type)` entities: Asset, Facility, Department, Workstation, Personnel.
     - An ordered, non-deduplicated list of relationship descriptors. The types are `LOCATED_IN`, `BELONGS_TO`, `ASSIGNED_TO` and `MAINTAINS`.
     - The column list.
   - The two extraction loops are methods. Each is proved against a specification function (`EntitySet`, `Relationships`), and the lemmas are about those functions.
2. **Knowledge-graph generation** (`GraphGenerator`, `graph_generator.dfy`).
   - Entity *i* becomes node `entity_i`.
   - Relationship endpoints are resolved by label: the first node carrying the label wins, whatever its type.
   - A relationship with an unresolved endpoint is dropped.
   - The directed graph keeps one edge per ordered `(source, target)` pair. The last relationship written for a pair decides the edge's type.
   - The graph is a class `DiGraph` whose `AddNode`/`AddEdge` update a node sequence and an edge map in place.
3. **Graph traversal** (`GraphTraversal`, `graph_traversal.dfy`). The recursive common table expression of `recursive_graph_query` is modelled as a recursive function over depth:
   - The base case is the start node.
   - The recursive case follows outgoing edges, optionally of one type.
   - A depth bound and a cycle guard apply, and rows are combined with `UNION ALL`.
   - Rows are ordered by `(depth, id)`.
   - Proved: every row is a simple walk from the start node within the depth bound (soundness). Every such walk is a row (completeness). Each walk appears exactly once when the edge table has no parallel edges. The recursion dies out by depth |nodes| on any graph, cyclic or not.
4. **Chat context rendering** (`ChatContext`, `chat_context.dfy`).
   - `_format_relationship` maps a relation type to a phrase and builds `"<relation>: <entity> (<entity_type>)"`.
   - The rendering loop of `_get_graph_context` turns the graph query's records into an indented text block with one header per run of equal work orders. This loop is a method with a `for` loop, proved equal to a line-based specification `ContextText`.

`wrappers.dfy` holds `Option`, `Result` and `Distinct`.

The external calls are the Neo4j query, the PostgreSQL session and the chat model. They are not modelled. Their results are parameters: the rendering takes the query records, or `None` when the query raised. The traversal takes the node and edge tables.

Behaviour of the code worth noting:
- Extraction never creates a `WorkOrder` entity.
- `ASSIGNED_TO` links Workstation to Department.
- A `MAINTAINS` descriptor has source label `"WO_" + id`. Since no entity carries such a label, generation drops every `MAINTAINS` descriptor unless some row holds a label beginning with `"WO_"` in a label column (`GraphGenerator.NoMaintainsEdges`). More precisely, the source label resolves only if some row holds that exact string in a label column (`GraphGenerator.ResolvedLabelComesFromRow`).
- Edges are deduplicated per ordered pair, not per (pair, type).
- The traversal follows outgoing edges only.
- The relation lines of the rendered context test truthiness, so an empty relation name is skipped just like a null one.

## Model

| member | source | states |
|---|---|---|
| OntologyProcessor.ListOf | api/ontology_processor.py:26 | turning the entity set into a list keeps exactly its elements, each once, in an unspecified order |
| OntologyProcessor.ExtractEntities | api/ontology_processor.py:5-26 | the returned entities are pairwise distinct, and an entity is returned iff some row emits it under the five column rules |
| OntologyProcessor.RowEntitiesShape | api/ontology_processor.py:9-24 | a row's entities have one of the five entity types and a label taken from one of the row's label columns; an all-null row emits none |
| OntologyProcessor.EntityTypesClosed | api/ontology_processor.py:9-24 | every extracted entity type is Asset, Facility, Department, Workstation or Personnel, never WorkOrder |
| OntologyProcessor.AssetEntityIff | api/ontology_processor.py:11-12 | an Asset entity with label n exists iff some row has a non-null Asset ID and Asset Name n |
| OntologyProcessor.EntityLabelsFromRows | api/ontology_processor.py:10-24 | every entity label occurs in a label column of some row |
| OntologyProcessor.RowRelationshipsOrder | api/ontology_processor.py:33-63 | within one row, descriptors come in the order LOCATED_IN, BELONGS_TO, ASSIGNED_TO, MAINTAINS and have only those types; an all-null row emits none |
| OntologyProcessor.RowRelationshipRules | api/ontology_processor.py:33-63 | for each type, a row emits that descriptor iff its two columns are non-null, with the stated endpoints: Workstation to Department for ASSIGNED_TO, "WO_"+id to asset for MAINTAINS, which does not need Asset ID |
| OntologyProcessor.ExtractRelationships | api/ontology_processor.py:28-65 | the loop returns each row's descriptors concatenated in row order |
| OntologyProcessor.RelationshipsAppend | api/ontology_processor.py:32-63 | the descriptors of concatenated row blocks are the concatenation of each block's descriptors, so output follows row order |
| OntologyProcessor.RelationshipCount | api/ontology_processor.py:30-65 | the number of descriptors equals the number of satisfied column rules summed over rows: no deduplication |
| OntologyProcessor.RelationshipFromRow | api/ontology_processor.py:32-63 | a descriptor is in the output iff some row emits it |
| OntologyProcessor.NullRowsContributeNothing | api/ontology_processor.py:10-63 | rows whose relevant columns are all null give no entities and no descriptors |
| OntologyProcessor.DanglingAssetLabel | api/ontology_processor.py:11-39 | any row with Asset Name n and Facility Name f but no Asset ID gives the LOCATED_IN descriptor n → f, while n has no Asset entity from that row |
| OntologyProcessor.ExtractOntology | api/ontology_processor.py:67-75 | entities are distinct and exactly the extracted set, relationships are exactly the ordered descriptor list, attributes are the column list in order |
| GraphGenerator.DecimalString | api/graph_generator.py:11 | the decimal numeral of a count is non-empty and has one digit exactly for counts below ten |
| GraphGenerator.DecimalStringInjective | api/graph_generator.py:11 | distinct counts have distinct numerals |
| GraphGenerator.EntityIdInjective | api/graph_generator.py:11 | distinct positions get distinct ids "entity_i" |
| GraphGenerator.NodesOfEntities | api/graph_generator.py:10-12 | one node per entity, duplicates included: node i has id "entity_i" and entity i's label and type, and ids are pairwise distinct |
| GraphGenerator.NextNode | api/graph_generator.py:11-12 | the id given to the next entity is not yet in the graph, and adding it appends exactly that node |
| GraphGenerator.FirstWithLabel | api/graph_generator.py:16-19 | no position iff no node has the label; otherwise the position of the first node with that label |
| GraphGenerator.ResolveFirst | api/graph_generator.py:16-22 | a label resolves iff some node carries it, and then to the id of the first such node in insertion order, whatever its type |
| GraphGenerator.EdgeMapOfSnoc | api/graph_generator.py:15-23 | one more relationship overwrites the edge of its resolved pair with its type, or leaves the edges unchanged when an endpoint is unresolved |
| GraphGenerator.EdgeForEndpoints | api/graph_generator.py:21-23 | an edge written for a relationship joins two node ids |
| GraphGenerator.OverwriteLastWins | api/graph_generator.py:22-23 | after a sequence of edge writes a pair is present iff some write targets it, and its type is that of the last such write |
| GraphGenerator.EdgeEndpointsAreNodes | api/graph_generator.py:21-41 | every edge's source and target are node ids (referential integrity) |
| GraphGenerator.EdgeIsLastWriter | api/graph_generator.py:15-23 | a pair is an edge iff some relationship resolves to it, and its type is that of the last relationship resolving to that pair |
| GraphGenerator.UnresolvedAreDropped | api/graph_generator.py:21 | dropping the relationships with an unresolved endpoint changes no edge, and the kept ones are exactly those that resolve |
| GraphGenerator.DiGraph.constructor | api/graph_generator.py:7 | a new graph has no nodes and no edges |
| GraphGenerator.DiGraph.AddNode | api/graph_generator.py:12 | adding a node with a fresh id appends it and leaves the edges unchanged |
| GraphGenerator.DiGraph.AddEdge | api/graph_generator.py:22-23 | adding an edge between existing nodes sets the type of that ordered pair, overwriting any earlier one, and leaves the nodes unchanged |
| GraphGenerator.EdgeList | api/graph_generator.py:35-42 | the edge list holds exactly the map's edges, one per ordered pair |
| GraphGenerator.AddEntityNodes | api/graph_generator.py:10-12 | the node loop leaves the graph's nodes equal to the entities' nodes, with no edges |
| GraphGenerator.AddRelationshipEdges | api/graph_generator.py:15-23 | the edge loop leaves the nodes alone and the edges equal to the last-writer map of the resolvable relationships |
| GraphGenerator.BuildGraph | api/graph_generator.py:7-43 | the output nodes are the entities' nodes, and the output edges are exactly the last-writer edges, one per ordered pair |
| GraphGenerator.GenerateKnowledgeGraph | api/graph_generator.py:5-45 | a missing entities or relationships key is a failure; otherwise the nodes are the entities' nodes, the edges are exactly the last-writer edges, and there are as many edges as resolved ordered pairs, no two with the same (source, target) |
| GraphGenerator.EmptyOntologyEmptyGraph | api/graph_generator.py:10-43 | no entities and no relationships give no nodes and no edges |
| GraphGenerator.ResolvedLabelComesFromRow | api/graph_generator.py:16-19 | after extraction, a label resolves only if some row carries it in a label column |
| GraphGenerator.ExtractedMaintainsFromWorkOrders | api/ontology_processor.py:58-63 | every extracted MAINTAINS descriptor has a source beginning with "WO_" |
| GraphGenerator.EdgeTypeFromResolvedRelationship | api/graph_generator.py:21-23 | each edge's type is the type of a relationship whose source resolves |
| GraphGenerator.NoMaintainsEdgesAmong | api/graph_generator.py:16-23 | when no row label looks like a work-order label, no edge built from the extracted entities has type MAINTAINS |
| GraphGenerator.NoMaintainsEdges | api/graph_generator.py:16-23 | extraction followed by generation yields no MAINTAINS edge unless some row holds a "WO_" label in a label column |
| GraphTraversal.RecursiveGraphQuery | api/database.py:30-84 | the result is the traversal rows ordered by (depth, id), each kept with its multiplicity; what the rows are is stated by QuerySound, QueryComplete and QueryMultiplicity |
| GraphTraversal.SortRecords | api/database.py:76 | the result is ordered by (depth, id) and is a permutation of the traversal rows |
| GraphTraversal.InsertSorted | api/database.py:76 | inserting a row into a list ordered by (depth, id) keeps it ordered |
| GraphTraversal.InsertPermutes | api/database.py:76 | insertion adds exactly one copy of the row and loses none of the others |
| GraphTraversal.SeedSound | api/database.py:40-49 | a base-case row is the start node, with path [start] and depth 0 |
| GraphTraversal.ArriveSound | api/database.py:54-66 | an extended row reaches a target not yet on the path, appends it to the path and is one level deeper |
| GraphTraversal.StepSound | api/database.py:61-65 | an extended row comes from an outgoing edge of the row's node that passes the type filter |
| GraphTraversal.ExpandConforms | api/database.py:53-66 | extending simple walks from the start by one hop gives simple walks from the start, one level deeper |
| GraphTraversal.LevelSound | api/database.py:39-67 | every row of recursion level d is a simple walk of length d+1 from the start, within the depth cap |
| GraphTraversal.LevelsSound | api/database.py:51 | a row of the UNION ALL up to level d has depth at most d and belongs to the level of its own depth |
| GraphTraversal.LevelsComplete | api/database.py:51 | a row of level k ≤ d is in the UNION ALL up to level d |
| GraphTraversal.QuerySound | api/database.py:30-84 | every result row is a simple walk from the start along filtered outgoing edges, ends at its own node, has depth = path length − 1, and stays within max(max_depth, 0) |
| GraphTraversal.SeedComplete | api/database.py:40-49 | the start node, when stored, gives a base-case row |
| GraphTraversal.ArriveComplete | api/database.py:54-66 | a stored target not on the path gives an extended row |
| GraphTraversal.StepComplete | api/database.py:61-65 | every filtered outgoing edge is followed |
| GraphTraversal.ExpandComplete | api/database.py:53-66 | every row is extended |
| GraphTraversal.LevelComplete | api/database.py:39-67 | every simple walk within the depth cap appears at the level equal to its length − 1 |
| GraphTraversal.QueryComplete | api/database.py:30-84 | every simple walk from the start within the depth cap, ending at a stored node, is a result row |
| GraphTraversal.LevelsVanish | api/database.py:64-66 | the recursion produces nothing at depth ≥ the number of nodes, so it terminates even on cyclic graphs |
| GraphTraversal.OccurrencesSort | api/database.py:76 | ordering the rows keeps the number of rows for each path |
| GraphTraversal.OccurrencesLevel | api/database.py:39-67 | with unique node ids and no parallel filtered edges, recursion level d holds a path once if it is a simple walk of d hops from the start within the depth cap, and not at all otherwise |
| GraphTraversal.OccurrencesLevels | api/database.py:39-67 | the UNION ALL up to level d holds each simple walk of at most d hops within the cap exactly once, and nothing else |
| GraphTraversal.OccurrencesStep | api/database.py:61-66 | without parallel edges, extending one row gives each one-hop extension of its path exactly once |
| GraphTraversal.QueryMultiplicity | api/database.py:39-76 | with unique node ids and no parallel filtered edges, each path appears exactly once if it is a simple walk within the depth cap and not at all otherwise: k distinct walks to a node give k rows |
| GraphTraversal.StartRowOnce | api/database.py:40-49 | a stored start node appears exactly once with path [start] |
| GraphTraversal.MissingStartEmpty | api/database.py:48-49 | a start id that is not stored gives an empty result |
| GraphTraversal.EmptyFilterIsNoFilter | api/database.py:34-36 | an empty relationship type filters nothing: same result as no type |
| ChatContext.ReplaceUnderscores | api/chat_handler.py:113 | same length, with every underscore turned into a space and every other character kept |
| ChatContext.TitleCasePointwise | api/chat_handler.py:113 | title-casing keeps length; a letter becomes upper case iff it starts a word, lower case otherwise; other characters are kept |
| ChatContext.RelationPhrase | api/chat_handler.py:103-113 | a relation type in the fixed map gives its mapped phrase, any other type its underscores-to-spaces title-cased form; stated by KnownRelationPhrases and UnknownRelationPhrase |
| ChatContext.UnknownRelationPhrase | api/chat_handler.py:113 | an unknown relation type keeps its length; underscores become spaces, other uncased characters are kept, and each letter becomes its upper-case form when it starts a word and its lower-case form otherwise |
| ChatContext.KnownRelationPhrases | api/chat_handler.py:103-111 | each of the seven known relation types maps to its fixed phrase rather than the title-cased fallback |
| ChatContext.LabelShape | api/chat_handler.py:114 | a label is relation, ": ", entity, " (", entity type, ")" in that order and nothing else |
| ChatContext.FormatRelationship | api/chat_handler.py:101-114 | `_format_relationship`: the relation phrase, the entity and the entity type in the label layout; stated by FormatRelationshipShape and LabelShape |
| ChatContext.FormatRelationshipShape | api/chat_handler.py:101-114 | a formatted relationship is the relation phrase, ": ", the entity (or "None"), " (", the entity type (or "None"), ")" |
| ChatContext.Display | api/chat_handler.py:64 | `str.replace("WO_", "Work Order ")`, replacing non-overlapping occurrences from left to right; stated by DisplayHasNoPrefix, DisplayKeeps and DisplayWorkOrderLabel |
| ChatContext.DisplayHasNoPrefix | api/chat_handler.py:64 | after replacement no "WO_" remains |
| ChatContext.DisplayKeeps | api/chat_handler.py:64 | a label without "WO_" is displayed unchanged |
| ChatContext.DisplayWorkOrderLabel | api/chat_handler.py:64 | "WO_" + id is displayed as "Work Order " + id, when id itself contains no "WO_" (otherwise every later "WO_" is replaced too) |
| ChatContext.AppendRelationLines | api/chat_handler.py:67-92 | appends exactly the bullet, first-arrow and second-arrow lines of the record's truthy relations, in that order |
| ChatContext.RendersExtend | api/chat_handler.py:58-64 | the loop keeps going past a record unless it has no work order after one that had one |
| ChatContext.ContextText | api/chat_handler.py:51-99 | the context text: the fallback message when the query raised or a header replacement would raise, the no-data message for no records, and otherwise the heading followed by each record's lines; the loop computing it is GraphContext |
| ChatContext.GraphContext | api/chat_handler.py:51-99 | the rendered text is the no-data message for no records, the fallback message when the query or the header replacement raises, and otherwise the heading followed by each record's lines |
| ChatContext.RecordLinesShape | api/chat_handler.py:58-92 | one record adds at most four lines in the order header, primary, secondary, tertiary; a header iff its work order is present and differs from the previous one; each relation line iff that relation is truthy |
| ChatContext.RecordLinesContent | api/chat_handler.py:62-92 | each line a record adds shows that record's own work order or its formatted relation of the matching rank |
| ChatContext.ContextLinesBound | api/chat_handler.py:48-92 | n records render to at most 4n lines, so at most 60 for the 15 records the query returns |
| ChatContext.RecordHeaders | api/chat_handler.py:62-65 | the only header a record can add is its own work order, as its first line, and it adds one exactly when its work order is present and differs from the previous record's |
| ChatContext.HeadersCoverWorkOrders | api/chat_handler.py:56-65 | a work order has a header iff some record carries it |
| ChatContext.GroupedHeadersDistinct | api/chat_handler.py:47-65 | when records with equal work orders are adjacent, as the query's ordering gives, no two header lines are equal, so each carried work order gets exactly one header |
| ChatContext.UngroupedRecordsRepeatHeaders | api/chat_handler.py:56-65 | grouping is by consecutive runs: records with work orders a, b, a (a ≠ b) and no relations render as exactly the three headers a, b, a |

## Left out

- Parsing and coercion are left out. This covers CSV parsing, the DataFrame, `pd.notna` and the `str()` coercion of cell values. Rows are maps from column name to an optional string, and a missing column reads as null.
- The order of the entity list that comes out of a Python set is not specified. `ListOf` proves only membership and uniqueness.
- The order of the output edges, which comes from the graph library's adjacency iteration, is not specified. `EdgeList` proves only membership and one edge per pair.
- Node attributes are modelled only through the operations the code uses. A repeated `add_node` on an existing id, which merges attributes, cannot happen: ids are fresh. The implicit node creation of `add_edge` cannot happen either: endpoints are existing nodes. `AddNode` and `AddEdge` require these, and the loops prove them.
- GraphTraversal: the `properties` column is not carried in `PathRecord`. It is copied from the node unchanged and no condition reads it.
- GraphTraversal.SortRecords: SQL leaves the relative order of rows with equal `(depth, id)` unspecified. The model fixes one order, that of an insertion sort of the rows as generated, and proves only the ordering and permutation.
- Building the SQL text is left out, including the string interpolation of `relationship_type` into it, with its quoting issues. The filter is an `Option<string>` compared for equality. Also left out are the database session and `init_db`, the row-to-dict conversion, and the integer width of SQL ids and depths.
- `max_depth` is an unbounded integer. A negative value still yields the start row, because the base case has no depth condition. The model writes this as the cap `DepthCap(max_depth) = max(max_depth, 0)`.
- ChatContext: the Cypher query, the Neo4j driver, logging and the chat-model call in `get_response` are left out. The query's records, or `None` when it raised, are the input of `GraphContext`. The unused `work_order_type` field is not carried.
- ChatContext.GraphContext: the `LIMIT 15` of the query bounds its input but is not demanded by the loop, so there is no precondition. `ContextLinesBound` states what the limit implies for the output.
- ChatContext.TitleCasePointwise: Python's `str.title()` is modelled for ASCII letters only. Non-ASCII cased characters are treated as uncased, and Unicode case mappings that change length are not modelled.
- ChatContext.FormatRelationshipShape: a null entity or entity type is rendered as Python's `"None"`. Other non-string values the driver might return are not modelled.
- GraphGenerator: the payload is typed. Every entity is a (label, type) pair and every relationship a complete record, so the `IndexError` or `KeyError` that the code raises on a malformed item from the request JSON is not modelled. Only a missing top-level `entities` or `relationships` key is modelled as a failure.
- The HTTP layer, the configuration, the ORM models, the user interface and the frontend graph layout are outside the modelled core.
