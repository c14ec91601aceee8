# Verified model of a language server for Spanner GoogleSQL

This project models the parts of the language server whose correctness is not
visible from any one function, and proves what those parts are for. Verify it
with `dafny verify dfyconfig.toml` (Dafny 4.11).

**The document store** (`DocumentStore`, `StoreProtocol`, `StoreRuns`,
`StoreEffects`). The handler keeps documents, contents, parses, open files and
workspace files in maps. An update reserves a revision under the lock, parses
outside it, and installs under it if the revision is still its own; closing,
indexing from disk, removing files and removing folders come in between. Each
critical section is a method of a class with those maps as fields, proved against
an operation on one path. A run is any sequence of critical sections with the
reservations in flight as state. In every run an install succeeds exactly when
nothing on its path has changed since the reservation, so all runs are serial; the
maps stay consistent; the messages about a path reach the client in revision
order; and which steps move the open bit, the workspace bit and the text of a path
is said by their labels.

**Names** (`Syntax`, `CteBindings`, `AliasBindings`, `SelectWalk`,
`SelectAliases`, `SelectIndexes`, `QueryShapes`, `ColumnBindings`,
`ColumnSources`, `Relations`, `PathsAndNames`). Trees are reduced to the nodes
that matter for scoping. The binders walk them with scope maps and binding records
updated in place; links to bindings are positions in a list. Each binder is proved
equal to a rule stated on the tree alone: a name at an address means what the
nearest enclosing declaration says. On top of that stand the duplicate laws, the
joint index of the SELECT aliases of a document, the columns of common table
expressions and derived tables (which members each binding of the returned index
holds, and which are reported as unknown), and the references to tables and views.
Beside each index stands a module that says what it holds by the kinds of the
nodes alone, without the functions that the walk uses: `CteReferences`,
`AliasReferences`, `SelectUses`, `QueryItems`, `ColumnClaims`,
`RelationReferences`.

**Renames** (`Editing`, `AliasRename`, `AliasReindex`, `AliasReindexFlags`,
`SelectAliasRename`, `SelectAliasDocument`, `SelectAliasReindex`, `ColumnRename`,
`ColumnReindex`, `ColumnSelects`, `TableRename`, `TableQualifiers`, `Refactor`,
`TableRefactor`, `TableOccurrences`, and the examples beside them). An edit
replaces the text of identifiers by their ranges. The question is what the
handler's edits, made after its own test has passed, leave as it was when the
binders run again on the edited document. It is answered exactly, in terms of the
document before the edit, for the qualifiers that a table alias binds, for the
uses of a SELECT alias, for the members that refer to the columns of queries and
the SELECT aliases that go with them, and for the relations named in FROM clauses
when a table or a view is renamed. A table or view that stands in a FROM clause
without an alias also lends its name to qualifiers, which no edit touches: in
`SELECT T.x FROM T` the qualifier is left behind, and when T is renamed to N in
`SELECT (SELECT N.y FROM T) FROM N` the qualifier moves to the renamed relation
(`TableQualifiers.QualifierKeepsIff`). A rename of a table has a plan exactly when
every occurrence of the name in the workspace is understood, one place creates it
and one root covers it; the plan then holds exactly the occurrences to rewrite.

**Text** (`Texts`, `TextNames`, `FromSlots`, `ColumnNames`, `ColumnMembers`,
`ColumnEdits`, `SparedBinders`, `MemberReindex`, `SelectAliasEdits`,
`SelectEditsReindex`). Renames find names by their ranges, so the theorems about
whole documents rest on one assumption about the text: each identifier stands by
itself (`Texts.OneText`). From it follow the places of all names that an edit can
touch, and which binder each edit leaves alone.

**Workspace questions** (`WorkspaceScan`, `QueryColumnTypes`, `TypeMatches`,
`Diagnostics`, `DiagnosticReports`). A map of documents is visited in any order;
what is found is a multiset that does not depend on it. The search for the base
column of a query column ends on every workspace and its visited set cuts only
cycles. The result identifier of a diagnostic report is a cache key: equal
identifiers mean equal diagnostics, with one exception that is characterised
exactly.

**Coordinates and tokens** (`Coordinates`, `TextIndex`, `SemanticTokens`,
`CallScanner`, `CteSymbols`, `Sorting`, `Encodings`, `SortedOrders`). UTF-8
offsets and UTF-16 positions (section 3 of RFC 3629, section 2.1 of RFC 2781,
"Position" of the Language Server Protocol 3.17) are inverse to each other on
decode boundaries and in the same order; in an encoded text they are those of its
characters (`Encodings.PositionOfCharacter`). Semantic tokens ("Integer Encoding
for Tokens" of the same protocol) are encoded and filtered in 32-bit arithmetic so
that a client decodes just the right tokens. The stack algorithms for incomplete
calls and for the outline of common table expressions do what their definitions
without a stack say.

## Where the code does not meet the tempting claim

- A table-alias rename that passes the conflict test can still change meanings:
  an unresolved qualifier can be captured, and an ambiguous name can be doubled.
  `AliasRename.RenameTheorem` and, for the index extracted again,
  `AliasReindex.ReindexTheorem` give the exact condition;
  `AliasRenameExamples.PassedTestCanCapture` and `.PassedTestCanDouble` are
  documents where it fails. An alias without references can be doubled unnoticed;
  `AliasReindexFlags.FlagsTheorem` says when the duplicate flags stay as well.
- The test before a rename of a SELECT alias lets a use be captured that meant
  nothing, or a path fall to a table alias of the new name.
  `SelectAliasRename.RenameTheorem`, and for a whole document
  `SelectAliasReindex.RenameTheorem`, are the exact condition on the document
  before the edit; `SelectAliasRenameExamples.PassedTestCanCapture` and
  `.PassedTestCanFall` are documents where it fails.
- The test before a rename of a column looks only at the columns of its own query.
  Where another query passes the column on without an alias, that query's column
  changes its name too, and members that use it do not follow; and a reference of
  the column inside its own query can fall to a table alias of the new name.
  `ColumnReindex.RenameTheorem` is the exact condition;
  `ColumnRenameExamples.PassedTestCanLose` and
  `ColumnReindexExamples.PassedTestCanFall` are documents where it fails. An item
  without an alias that passes the column on also changes its SELECT alias, and
  GROUP BY, HAVING and ORDER BY do not follow: `ColumnSelects.SelectTheorem` is the
  exact condition, `ColumnReindexExamples.PassedTestCanLeaveBehind` a document
  where it fails.
- The test before the rename of a table or view looks for a table or view of the
  new name, not for a common table expression. A reference changes its meaning
  exactly where the new name denotes such an expression, or was there already
  (`TableRename.TableRenameTheorem`, `TableRename.ViewRenameTheorem`);
  `TableRenameExamples.PlannedRenameCanCapture` and `.PlannedViewRenameCanCapture`
  are documents where it does. The collector's own flag is coarser
  (`TableRefactor.RenameIsSafeIff`): it goes whenever the statement declares the
  name anywhere, which can be harmless
  (`TableRenameExamples.OverlapCanBeHarmless`) but never misses a capture
  (`TableRename.CapturedOverlaps`).
- The schema fingerprint leaves out declaration ranges, so ranges in related
  information may differ under one result identifier. In range, code, message and
  related document equal identifiers mean equal diagnostics
  (`Diagnostics.ParsedIdsEqualDiagnostics`). That rests on SELECT lists having
  items: the fingerprint writes a view of unknown shape like one without columns
  (`Diagnostics.EmptyShapeLooksUnknown`).
- Closing a file that is not indexed forgets the document but leaves the path
  open (`StoreProtocol.CloseLeavesOpenIff`); later reads from disk skip it.
- What the editor sent can be lost. A reservation fails to install exactly when a
  step in between takes a new revision of its path (`StoreRuns.InstallFailsIff`;
  `StoreRuns.RevisionMovesIff` says which steps do), and a read from disk is one:
  `StoreRuns.NewestTextCanBeLost` is a run that ends with the text from disk.

## Model

| member | source | states |
|---|---|---|
| `DocumentStore.Handler.DocumentOriginLocked` | document_store.go:76-88 | the origin of a path joins the snapshot's bits with the two membership maps |
| `DocumentStore.Handler.ReserveDocumentUpdate` | document_store.go:90-101 | a reservation takes the next revision and the changed origin; nothing else on this or any other path moves |
| `DocumentStore.Handler.InstallDocumentSnapshot` | document_store.go:103-130 | a snapshot is installed exactly when its revision is current and no open document stands in the way of a workspace-only one; then document, content, parse and membership change together, otherwise nothing does |
| `DocumentStore.Handler.ForgetDocumentLocked` | document_store.go:194-199 | document, content and parse go, the revision moves on, membership stays |
| `DocumentStore.Handler.SetDocumentOriginLocked` | document_store.go:201-219 | the document is copied with a new origin and a new revision and the membership maps follow, on that path only |
| `DocumentStore.Handler.DidClose` | handler.go:2656-2671 | closing an indexed file keeps its document without the open bit; any other file is forgotten |
| `DocumentStore.Handler.RestoreWorkspaceFileFailed` | handler.go:2711-2723 | a failed read drops a file from the workspace and the store unless it is open again |
| `DocumentStore.Handler.StoreWorkspaceReserve` | handler.go:2809-2817 | a file read from disk reserves a revision exactly when the path is not open |
| `DocumentStore.Handler.StoreWorkspaceRecheck` | handler.go:2827-2836 | the recheck lets a disk store go on exactly when the revision is its own and the path is not open |
| `DocumentStore.Handler.RemoveWorkspaceFile` | handler.go:2745-2754 | a removed file stays as an open document or is forgotten |
| `DocumentStore.Handler.AddWorkspaceRoot` | handler.go:2926-2944 | a folder joins the roots and no path changes |
| `DocumentStore.Handler.PathInWorkspaceLocked` | handler.go:2964-2972 | a path is in the workspace exactly when some root contains it, in whatever order the roots are tried |
| `DocumentStore.Handler.RemoveWorkspaceFolder` | handler.go:2946-2962 | every path outside the remaining roots leaves the workspace, as an open document or forgotten; all other paths are untouched; the order of the files does not matter |
| `StoreProtocol.Perform` | document_store.go:90-130 | the handler's critical sections take its maps exactly where the step relation goes |
| `StoreProtocol.GuardNeverRejects` | document_store.go:107-116 | for a reservation of any reachable state the workspace-over-open guard never decides: the revision alone does |
| `StoreProtocol.StoreInvariant` | document_store.go:41-130 | in every state of every run: documents, contents and parses have the same paths and agree, cached indexes are those of the text, origin bits match membership, revisions never exceed the counter, workspace paths have a document, and each reservation whose revision is current finds its path as it left it |
| `StoreProtocol.InstallSucceedsIff` | document_store.go:107-116 | in every run an install succeeds if and only if the revision is still its own, and then the whole path is what the reservation saw; disk text never replaces an open document |
| `StoreRuns.RevisionMovesIff` | document_store.go:90-101 | a step takes a new revision of a path exactly when it is an edit, a close or a deletion of the file, a read from disk or its failure while the file is not open, or the removal of the last folder that holds an indexed file |
| `StoreRuns.InstallFailsIff` | document_store.go:107-116 | over any continuation of a run, a reservation still in flight installs exactly when no such step on its path came in between |
| `StoreProtocol.Serializability` | document_store.go:132-152 | over every interleaving each path ends as if every update that took effect had been done in one piece at its install, and the others never |
| `StoreProtocol.RevisionsGrow` | document_store.go:97-98 | the revision of a path never goes back, over any continuation of a run |
| `StoreProtocol.RecheckIsRedundant` | handler.go:2827-2837 | the recheck gives up only reservations that no continuation of the run could install |
| `StoreProtocol.CloseLeavesOpenIff` | handler.go:2658-2669 | after a close the path is open exactly when it was open and not indexed, and exactly then disk stores skip it |
| `StoreProtocol.PublicationInvariant` | document_store.go:154-186 | in every run no revision of a path is published twice, what waits has not been sent, and the log is ordered |
| `StoreProtocol.PublicationOrder` | document_store.go:159-185 | per path, publications have strictly increasing revisions, and nothing older than a cleared close follows its clearing |
| `StoreProtocol.CloseIsNewer` | handler.go:2656-2699 | every reservation, waiting snapshot and publication made before a close has a smaller revision than the close |
| `StoreProtocol.PublishedBeforeCleared` | handler.go:2666-2698 | in every run, a snapshot that was a document, in flight or waiting at a close and is published at all is published before that close's clearing message |
| `StoreProtocol.WasCurrent` | document_store.go:162-171 | every published snapshot was the document of its path at an earlier point of the run |
| `StoreRuns.NewestTextCanBeLost` | document_store.go:103-116 | a run in which the editor opens a file while the indexer reads it: it ends with the text from disk, the path not open, and no reservation left |
| `Coordinates.ComparePosition` | handler.go:896-898 | zero exactly for equal positions; lines before characters |
| `TextIndex.NewTextIndex` | text_index.go:18-26 | the line starts are 0 and the offsets after each newline byte |
| `TextIndex.Search` | text_index.go:33-34 | the binary search finds the number of line starts at or before an offset |
| `TextIndex.Utf16Length` | text_index.go:40-46 | the loop counts UTF-16 code units of the decoded runes, invalid bytes as one each |
| `TextIndex.PositionAt` | text_index.go:28-38 | the position of a clamped offset: its line and the UTF-16 units since the line start |
| `TextIndex.ByteOffset` | text_index.go:48-78 | the offset of a position and whether it was hit exactly |
| `TextIndex.PositionRoundTrip` | text_index.go:28-78 | every decode boundary, of any bytes, comes back from its position |
| `TextIndex.OffsetRoundTrip` | text_index.go:48-78 | every accepted position comes back from its offset, which is a decode boundary |
| `TextIndex.AcceptedIff` | text_index.go:48-78 | a position is accepted exactly when it is the position of a decode boundary |
| `TextIndex.RejectedOffset` | text_index.go:59-77 | a rejected position on an existing line yields the last decode boundary before it |
| `TextIndex.PositionOrder` | text_index.go:28-38 | positions strictly preserve the order of decode boundaries |
| `TextIndex.PositionOrderIff` | text_index.go:28-38 | and reflect it, so they are distinct for distinct boundaries |
| `TextIndex.RangesAreIntervals` | handler.go:884-894 | containment, inclusion and overlap of converted ranges are those of the byte intervals |
| `TextIndex.SingleLineUTF16Range` | text_index.go:87-96 | the method returns the single-line range of an interval or refuses, as specified |
| `TextIndex.SingleLineIff` | text_index.go:87-96 | between decode boundaries a single-line range exists exactly when the bytes hold no newline, with their UTF-16 length |
| `SemanticTokens.FilterSemanticTokens` | handler.go:2511-2554 | decoding the filtered data gives exactly the overlapping tokens of the decoded input, in order, under 32-bit wrap-around, for any data |
| `SemanticTokens.EncodeSemanticTokens` | handler.go:2450-2487 | decoding the full encoding gives the valid tokens of known types, sorted by position |
| `SemanticTokens.Modifiers` | handler.go:2482-2485 | a bit of the modifier word is set exactly when some known modifier of the token sets it |
| `SemanticTokens.ModifierBitsIff` | handler.go:2482-2485 | the same of the union as a function: unknown modifiers, order and repetition do not matter |
| `SemanticTokens.DecodeInjective` | handler.go:2511-2554 | two complete encodings that decode alike are equal, so decoding determines the data |
| `SemanticTokens.DecodeAppend` | handler.go:2520-2552 | decoding is compositional: a further part is read from the cursor the first part ends at |
| `CallScanner.ActiveIncompleteFunctionCall` | handler.go:676-708 | the scan answers with the token before the last parenthesis still open at the cursor and the number of commas directly inside it, and with nothing exactly when there is none or no name precedes it; stray closing parentheses included |
| `CallScanner.StackStep` | handler.go:688-702 | one token keeps the stack equal to the list of unmatched parentheses, each as deep as there are frames above it |
| `CallScanner.TopIsLast` | handler.go:704-707 | the top frame is the last unmatched parenthesis, an empty stack means none |
| `CallScanner.ScannedIs` | handler.go:684-687 | the tokens looked at are the longest prefix before the cursor and before any lexer error |
| `CteSymbols.BuildForest` | cte_symbols.go:40-55 | the stack loop builds an outline of the sorted bindings: whatever the ranges each binding once, in sorted preorder, with only containers as ancestors; for nested or disjoint ranges exactly the earlier containers |
| `CteSymbols.PopOthers` | cte_symbols.go:42-45 | popping leaves a path whose top contains the next binding; for nested or disjoint ranges nothing popped can contain a later one |
| `CteSymbols.PreorderIsOrder` | cte_symbols.go:40-55 | the preorder of such a forest is the order of insertion, each node once |
| `CteSymbols.ForestIsOutline` | cte_symbols.go:31-62 | a forest in which each node hangs where the stack put it has those properties on its finished lists of children |
| `CteSymbols.CteDocumentSymbols` | cte_symbols.go:31-62 | the bindings are sorted, outlined by such a forest, and rendered root by root |
| `CteSymbols.DocumentSymbolFromNode` | cte_symbols.go:64-95 | a symbol has its binding's ranges and, sorted by range, its known columns and the symbols of its children, nothing else |
| `Sorting.SortFunc` | cte_symbols.go:32-38 | the library sort: ordered and a permutation, nothing about ties |
| `CteBindings.ExtractCTEIndex` | cte_bindings.go:31-40 | the index holds exactly what the lexical rule records for the statements, sites sorted |
| `CteBindings.CteIndexer.IndexNode` | cte_bindings.go:42-64 | the walk of a node under a scope map that matches the rule appends exactly the record of its subtree |
| `CteBindings.CteIndexer.IndexQuery` | cte_bindings.go:66-98 | the cloned scope grows past each CTE: a body sees the preceding siblings, the rest sees all |
| `CteBindings.CteIndexer.IndexQueryChild` | cte_bindings.go:71-92 | a CTE's name is bound after its own body, hiding an earlier one of that name |
| `CteBindings.CteIndexer.AddCTEReference` | cte_bindings.go:108-122 | a single-segment reference is added to the binding in scope, if there is one |
| `CteBindings.CteIndexer.AddReference` | cte_bindings.go:117-121 | one binding record gains one range and a site; all others are unchanged |
| `CteBindings.CteIndexer.AddDeclaration` | cte_bindings.go:73-89 | a declaration appends a binding without references and its site |
| `CteBindings.RecordIsLexical` | cte_bindings.go:31-122 | the record has one entry for each declaration, one for each single-segment table reference that the rule resolves, and nothing else; innermost WITH first, preceding siblings only inside a body, last duplicate wins, nothing across statements |
| `CteBindings.LookupIsLexical` | cte_bindings.go:133-145 | looking a reference up by its range finds what the rule finds by its place, and nothing exactly when the rule finds nothing |
| `CteBindings.BindingForReference` | cte_bindings.go:138-145 | the first non-declaration site with that very range, none only if there is none |
| `CteBindings.SiteOrigin` | cte_bindings.go:108-122 | every reference site belongs to a single-segment table reference |
| `AliasBindings.ExtractAliasIndex` | alias_bindings.go:47-59 | the index holds exactly what the lexical rule records for the statements, sites and members sorted |
| `AliasBindings.AliasIndexer.IndexAliasNode` | alias_bindings.go:61-81 | the walk under a scope that matches the rule appends exactly the record of the subtree |
| `AliasBindings.AliasIndexer.IndexSelectAliases` | alias_bindings.go:83-127 | a SELECT collects its FROM clause into a cloned scope, records the scope, and walks everything below it, FROM paths skipped |
| `AliasBindings.AliasIndexer.CollectTableAliases` | alias_bindings.go:129-174 | a FROM source adds its aliases left to right and its path ranges |
| `AliasBindings.AliasIndexer.AddTableAlias` | alias_bindings.go:176-216 | a duplicate flags itself and the first of its name, points to the first, and blocks the name in the scope |
| `AliasBindings.AliasIndexer.AddAliasReference` | alias_bindings.go:226-266 | a qualifier is recorded exactly when the scope binds its name to one alias |
| `AliasBindings.AliasIndexer.OpenScope` | alias_bindings.go:104-110 | the scope recorded for a SELECT gives every name its meaning inside it |
| `AliasBindings.RecordIsLexical` | alias_bindings.go:61-266 | the record has exactly the declarations, scopes and resolved qualifiers that the rule assigns to the places of the tree |
| `AliasBindings.DuplicateLaw` | alias_bindings.go:176-216 | an alias is flagged ambiguous exactly when another alias of the same FROM clause has the same name but for case; each but the first points to the first |
| `AliasBindings.CollectedReferences` | alias_bindings.go:226-266 | a binding collects the ranges of exactly the qualifiers that the rule binds to it; an ambiguous one collects none |
| `AliasBindings.NearestDecides` | alias_bindings.go:97-127 | a name means just what the innermost enclosing SELECT that declares it makes of it, one alias or an ambiguity that hides the outer ones, and nothing exactly where no enclosing SELECT declares it |
| `AliasBindings.BoundIsLocal` | alias_bindings.go:97-127 | so a bound name is bound by the nearest SELECT that declares it at all, where it is declared once |
| `AliasBindings.SiteAtPosition` | alias_bindings.go:268-275 | the first site that covers a position, or none |
| `AliasBindings.CoveredIff` | alias_bindings.go:268-275 | a position is at a site exactly when it is in the name of a declared alias or in a qualifier that the rule binds |
| `AliasBindings.LocalIsCount` | alias_bindings.go:176-216 | a FROM clause binds a name to an alias exactly when that alias is the only one of the name |
| `AliasRename.RenameConflicts` | alias_bindings.go:312-330 | the test holds exactly when some recorded scope shows the binding under a name and binds the new name to another one |
| `AliasRename.ConflictIsCollision` | alias_bindings.go:312-330 | every SELECT inside which the alias is visible and the new name means another alias makes the test fail |
| `AliasRename.CollisionIsConflict` | alias_bindings.go:312-330 | and every failed test comes from such a SELECT |
| `AliasRename.EditsAreExact` | alias_bindings.go:358-371 | the edits touch the renamed declaration and the qualifiers bound to it, and no other name |
| `AliasRename.RenamePreservesIff` | alias_bindings.go:83-127 | with no collision, re-indexing the edited tree keeps every qualifier's meaning if and only if none is captured and none doubled |
| `AliasRename.RenameTheorem` | alias_bindings.go:312-371 | the same for the index of a document: a passed test and the handler's own edits keep every meaning exactly under that condition |
| `AliasReindex.ReindexTheorem` | alias_bindings.go:312-371 | after a passed test, the index extracted from the edited document has binding by binding the references of the index before, if and only if no reference is doubled and none captured; what the CTE binder finds in the edited document does not matter |
| `AliasReindex.ReindexIff` | alias_bindings.go:226-266 | the same for the references of every declaration, in the order in which the walk records them |
| `AliasReindexFlags.FlagsTheorem` | alias_bindings.go:176-216 | the duplicate flags and their targets stay too if and only if, besides, the FROM clause of the renamed alias does not bear the new name twice; the members stay with the references |
| `AliasReindexFlags.FlagsStayIff` | alias_bindings.go:176-216 | the flags alone stay exactly under that condition |
| `AliasReindex.ResolveAlone` | alias_bindings.go:129-216 | what a qualifier means does not depend on what the aliases stand for |
| `AliasRenameExamples.PassedTestCanCapture` | alias_bindings.go:325-327 | in any index of `SELECT u.x FROM A AS t, UNNEST(B)` the test lets t be renamed to u, and u.x, which meant nothing, means the alias in the edited tree |
| `AliasRenameExamples.PassedTestCanDouble` | alias_bindings.go:325-327 | in any index of `SELECT t.x FROM A AS t, UNNEST(B) AS u WITH OFFSET AS u` the test lets t be renamed to u, and the reference is ambiguous in the edited tree |
| `SelectAliases.IndexSelectResultAliases` | select_alias_bindings.go:58-106 | the aliases of a SELECT node with their ambiguity, and each use found in its clauses, nested queries skipped, recorded as the list says: one alias, several, or none; a path headed by a table alias only as ambiguous |
| `SelectIndexes.ExtractSelectAliasIndex` | select_alias_bindings.go:31-56 | the joint index of a document: the indexes of its SELECTs, each with the clauses of its own and of its query, joined in the order of the walk, the sites pointing into the joint list |
| `SelectIndexes.UsesOfEntry` | select_alias_bindings.go:129-161 | each use of a SELECT stands at a place of its own in exactly one clause of that SELECT, outside nested queries |
| `SelectWalk.ExtractSelects` | select_alias_bindings.go:31-56 | the walk with its processed set yields, in preorder, what each node contributes by the tree alone |
| `SelectWalk.SelectWalker.Visit` | select_alias_bindings.go:39-52 | a query hands its body SELECT its ORDER BY; a SELECT not yet processed is indexed alone |
| `SelectWalk.EachSelectOnce` | select_alias_bindings.go:31-56 | every SELECT of the document is indexed exactly once, with the ORDER BY of its query exactly when it is a query's body, and nothing else is indexed |
| `SelectAliases.SelectAliasIndexer.AddAlias` | select_alias_bindings.go:67-93 | a repeated name flags all its bearers and is blocked in the scope map |
| `SelectAliases.SelectAliasIndexer.AddSelectAliasReferences` | select_alias_bindings.go:129-161 | the walk of a clause records its uses in order, nested queries skipped |
| `SelectAliases.SelectAliasIndexer.AddSelectAliasReference` | select_alias_bindings.go:163-186 | a use goes to its one alias, to the ambiguous ranges, or nowhere |
| `SelectAliases.BindingsGrow` | select_alias_bindings.go:84-92 | after each item an alias is ambiguous exactly when another one so far has its name |
| `SelectAliases.AmbiguousCollectsNothing` | select_alias_bindings.go:177-180 | an ambiguous alias has no references |
| `SelectAliases.ConflictIsCollision` | select_alias_bindings.go:252-256 | for an alias that is not ambiguous the rename test finds exactly another alias of the new name |
| `SelectAliasRename.RenameTheorem` | select_alias_bindings.go:238-256 | with no conflict found, extracting the table aliases and the SELECT aliases of one SELECT of the edited document again gives the same bindings, references and ambiguities, if and only if, in the document before, no use that meant nothing is spelled like the new name and at no path that refers to the alias the new name denotes a table alias |
| `SelectAliasReindex.RenameTheorem` | select_alias_bindings.go:31-56 | the same for a document: extracting the table aliases and the joint index again from the edited tree gives the same joint index but for the new name, if and only if every use of the SELECT of the renamed alias is safe; no other SELECT is touched |
| `SelectAliasDocument.EntryNamesApart` | select_alias_bindings.go:108-127 | that the names involved have ranges of their own follows from each identifier standing by itself in the text |
| `SelectAliasRename.KeptIffSafe` | select_alias_bindings.go:147-155 | the same of one use: what is recorded of it after the edit is decided by the document before |
| `SelectAliasRename.OwnedIff` | select_alias_bindings.go:147-155 | a path counts as one of a table alias exactly when the lexical rule binds its first name |
| `SelectAliasRename.EditedHeadDenotes` | alias_bindings.go:97-127 | after the edit an edited path denotes what the new name denotes there, any other what it did |
| `SelectAliasRename.RenameKeepsMeaning` | select_alias_bindings.go:238-256 | and of one bare name |
| `SelectAliasRename.EditedIff` | select_alias_bindings.go:238-250 | a use is edited exactly when it is recorded as a reference to the alias |
| `SelectAliasRenameExamples.PassedTestCanCapture` | select_alias_bindings.go:252-256 | the test passes, and a GROUP BY name that meant no alias becomes a reference |
| `SelectAliasRenameExamples.PassedTestCanFall` | select_alias_bindings.go:147-155 | `SELECT s AS t FROM A AS u GROUP BY t.x`: the test passes, and the reference to t becomes a path of the table alias u |
| `ColumnBindings.ExtractCTEColumnIndex` | cte_column_bindings.go:30-75 | one binding for each column of each known CTE, in order and for no other; it lists the references of its own SELECT alias and then, in order, the ranges of exactly the members that claim the column; the sites are those of the bindings, sorted |
| `ColumnBindings.ExtractDerivedColumnIndex` | derived_column_bindings.go:30-75 | the same for derived tables of known shape with unambiguous aliases |
| `ColumnBindings.ColumnIndexer.AddColumn` | cte_column_bindings.go:42-67 | the column's binding is appended with those references and their sites; the bindings before it stay |
| `ColumnBindings.BindingStands` | cte_column_bindings.go:50-66 | that binding holds, after the references of its SELECT alias, exactly the members that claim the column, each once and in order |
| `ColumnBindings.RecordedIff` | cte_column_bindings.go:62-66 | a member is among the references of the b-th binding, and at a non-declaration site of it, exactly when the member claims the column that binding stands for |
| `ColumnBindings.RecordedIsClaimed` | cte_column_bindings.go:62-66 | a member is recorded in the index exactly when it claims some column of it |
| `ColumnBindings.RecordedOnce` | cte_column_bindings.go:62-66 | over both returned indexes, all reference sites of a member are of one binding |
| `ColumnSources.DocumentIsBound` | alias_bindings.go:129-216 | what the two name binders extract gives the column binder aliases whose CTEs exist and members of unambiguous aliases only |
| `ColumnSources.DocumentShapesApart` | ddl_facts.go:166-194 | the shapes of the queries of CTEs and derived tables name their columns apart |
| `ColumnSources.DocumentFromItems` | cte_bindings.go:66-90 | the shape of every CTE and derived table is that of the SELECT list of its own query node |
| `ColumnSources.MembersAreClaimedOrReported` | semantic_diagnostics.go:47-79 | end to end from both binders and both column indexes: a member is at sites of at most one binding, and one that looks into a known shape is reported exactly when no index records it |
| `ColumnBindings.ReportedIffUnrecorded` | semantic_diagnostics.go:47-79 | outside ambiguous paths, a member of a known CTE or derived table is reported as unknown exactly when it is at no reference site of either returned index |
| `ColumnBindings.ReportedIffUnclaimed` | semantic_diagnostics.go:47-79 | that is, when it claims no column |
| `ColumnRename.RenameConflicts` | cte_column_bindings.go:127-130 | the test finds exactly another column of the query with the new name |
| `ColumnRename.EditsAreExact` | cte_column_bindings.go:132-146 | the edits change the column, the members that claim it and the items that pass it on without an alias, and no other name |
| `ColumnReindex.RenameTheorem` | handler.go:1767-1792 | with no other column of the new name, running the CTE, alias and SELECT-alias binders and both column extractors again on the edited document gives the same qualified members, each recorded under the same columns, if and only if, in the document before: no member of the query that names no column is spelled like the new name; no member looks through another query that passes the column on without an alias for a name that comes or goes there; and at no path that is a reference of the column inside its own query the new name denotes a table alias |
| `ColumnSelects.SelectTheorem` | select_alias_bindings.go:31-56 | the same rename and the SELECT aliases: the joint index of the edited document has the same aliases, references, ambiguities and ambiguous paths, but for names, if and only if every SELECT list meets a condition on its names before the edit: those that are renamed with the column leave no use of the old name behind, take none of the new one, double nothing and free nothing |
| `ColumnRename.MembersKeepIff` | handler.go:1767-1792 | the layer below, on lists of members: each member of an edited document claims the columns it claimed before exactly under the first two conditions |
| `ColumnRename.ReindexTheorem` | cte_column_bindings.go:30-75 | and in terms of the two column indexes extracted before and after, with the members in any order |
| `ColumnReindex.WithFalls` | cte_column_bindings.go:132-146 | a path that falls to a table alias is a member that the document before did not have |
| `ColumnEdits.DocumentApart` | cte_column_bindings.go:132-146 | that columns, members and references have ranges of their own follows from each identifier standing by itself in the text |
| `ColumnEdits.EditedQualifier` | cte_column_bindings.go:132-146 | of the qualifiers the rename edits exactly those that are own references of the column |
| `ColumnSelects.OwnIff` | cte_column_bindings.go:56-63 | the references of a column inside its own query are exactly the uses of the alias of its item that are no paths of a table alias |
| `SparedBinders.CtesStay` | cte_bindings.go:42-125 | edits that touch no name of a CTE and no table reference leave the CTE bindings and every lookup by range as they are |
| `SparedBinders.BindingsAfter` | alias_bindings.go:129-216 | edits that also touch no alias and no FROM path leave every alias with its name, place, ambiguity and source, a subquery being the edited one |
| `MemberReindex.MembersAfter` | alias_bindings.go:97-127 | where no edited qualifier denotes a table alias before or after, the members extracted again are those before with their names edited |
| `SelectEditsReindex.JointStaysIff` | select_alias_bindings.go:58-106 | for any edits that rename aliases of one name: the joint index stays, but for names, exactly when each use and each flag of each SELECT does by a rule on the lists before |
| `SelectAliasEdits.MeaningStays` | select_alias_bindings.go:163-186 | a name keeps its meaning in a list where several aliases are renamed at once exactly when it is neither the old nor the new name, or several bearers of it stay |
| `SelectAliasEdits.FlagsStayIff` | select_alias_bindings.go:84-92 | and the ambiguity flags stay exactly when no bearer of either name stays alone and a single renamed alias is ambiguous after exactly if it was before |
| `ColumnRenameExamples.PassedTestCanLose` | handler.go:1767-1779 | `WITH A AS (SELECT 1 AS x), B AS (SELECT a.x FROM A AS a) SELECT b.x FROM B AS b`: the test lets x of A be renamed to y, and b.x is then no column and is reported |
| `ColumnReindexExamples.PassedTestCanFall` | handler.go:1780-1792 | `WITH B AS (SELECT 1 AS x) SELECT a.t FROM (SELECT STRUCT(1 AS x) AS t FROM B AS u GROUP BY t.x) AS a ORDER BY t`, over any indexes of it: the test lets t of a be renamed to u and every member is safe, but t.x falls to the table alias u and is a new member |
| `ColumnReindexExamples.PassedTestCanLeaveBehind` | handler.go:1780-1792 | the same document with t renamed to y: the test passes and every member stays where it was, but the item a.t is renamed with the column and ORDER BY t is left behind |
| `Relations.RelationReferenceLocations` | handler.go:1529-1557 | the walk collects, in preorder, the ranges its visitor selects |
| `Relations.ReferencesAreLexical` | handler.go:1537-1553 | those are just the relations of the name, qualified or not, that no enclosing WITH clause gives a meaning |
| `Relations.SelectedIffNotACte` | handler.go:1537-1553 | node by node: selected exactly when the name fits and the lexical rule finds no CTE |
| `Relations.QualifiedIsUnbound` | cte_bindings.go:133-145 | a qualified name is never taken for a CTE reference |
| `Relations.CollectViewRefactorSites` | view_refactor.go:93-171 | the sites, declarations and safety of a document for a view rename, from its DDL names and its query walk |
| `Relations.ViewRefactorSites` | view_refactor.go:120-170 | in a safe document the sites are the DDL names and exactly the references by table name that no CTE owns |
| `QueryColumnTypes.TypeDefinition` | query_column_types.go:15-83 | the request ends on every workspace and answers with a location exactly when the chain of sources, followed without any guard, reaches a base column (keys that identify facts), or, without that assumption, when it does so without repeating a key |
| `QueryColumnTypes.TypeSearch.AliasMemberTypeDefinition` | query_column_types.go:15-50 | one member: into its CTE, its derived table, or the only matching table or view column of the workspace |
| `QueryColumnTypes.TypeSearch.QueryColumnTypeDefinition` | query_column_types.go:52-83 | one column under a visited set: a location exactly when an unguarded chain reaches it over unvisited, pairwise different keys; fewer keys remain at each turn |
| `QueryColumnTypes.GuardCutsOnlyCycles` | query_column_types.go:60-68 | the visited set stops no chain that would have reached a base column |
| `QueryColumnTypes.ReachesOnce` | query_column_types.go:52-83 | the unguarded chain is deterministic: one length, one location |
| `QueryColumnTypes.StepStaysInside` | query_column_types.go:15-50 | a link leads only to columns declared in the workspace, so the keys are finitely many |
| `QueryColumnTypes.TableColumnMatches` | alias_bindings.go:430-443 | all table columns of the name in the workspace, with multiplicity, in whatever order the documents are visited |
| `QueryColumnTypes.ViewColumnMatches` | alias_bindings.go:445-470 | all columns of the name in views of known shape, in whatever order the documents are visited |
| `WorkspaceScan.Gather` | alias_bindings.go:430-443 | a loop over a map of documents finds the same multiset in any order |
| `WorkspaceScan.EverywhereSplit` | alias_bindings.go:409-428 | any document may be visited first |
| `Diagnostics.DocumentDiagnosticState` | semantic_diagnostics.go:35-41 | the diagnostics are those of the text and of its members against the workspace; the identifier is the text with the schema |
| `Diagnostics.SemanticDiagnostics` | semantic_diagnostics.go:43-127 | sorted, and as a multiset the query errors and one report for each member whose source lacks the column |
| `Diagnostics.NamedMember` | semantic_diagnostics.go:81-120 | a named source is judged only if exactly one table or view of the workspace has the name |
| `Diagnostics.SchemaFingerprint` | semantic_diagnostics.go:314-366 | the entries of all documents by sorted path, tables before views |
| `Diagnostics.FingerprintExact` | semantic_diagnostics.go:314-366 | two fingerprints are equal exactly when every document declares the same tables and views by name and columns |
| `Diagnostics.EqualIdsEqualDiagnostics` | semantic_diagnostics.go:35-127 | identifiers agree exactly when text and declared schema agree; then the diagnostics agree in range, code, message and related document, up to order, exactly when no member names a single view whose shape is known in one state only |
| `Diagnostics.MemberAgrees` | semantic_diagnostics.go:81-120 | the same member by member, for equal fingerprints |
| `Diagnostics.MatchesAgree` | semantic_diagnostics.go:81-86 | with equal fingerprints a name matches equally often, and a single match has the same document and columns |
| `Diagnostics.NonEmptyShapesNeverDiffer` | semantic_diagnostics.go:346-359 | where known shapes have columns, equal fingerprints never hide a difference |
| `Diagnostics.ParsedIdsEqualDiagnostics` | semantic_diagnostics.go:35-127 | with shapes extracted from SELECT lists, which have items, equal identifiers mean equal diagnostics in range, code, message and related document, up to order |
| `Diagnostics.EmptyShapeLooksUnknown` | semantic_diagnostics.go:352-358 | two workspaces with one fingerprint and different reports |
| `QueryShapes.ExtractQueryColumns` | ddl_facts.go:166-194 | the shape of a query node is that of its SELECT list, unknown for anything but a SELECT |
| `QueryShapes.ExtractColumns` | ddl_facts.go:171-193 | a shape is known exactly when all items are named and no two names are equal but for case; then the columns are the items in order |
| `QueryShapes.ShapeApart` | ddl_facts.go:171-193 | the columns of a known shape have names of their own |
| `QueryShapes.ExtractedHasColumns` | ddl_facts.go:166-194 | a shape known from a SELECT list with an item has a column |
| `Refactor.RefactorPlan` | table_refactor.go:85-117 | over collected documents: a plan exists exactly when all are safe, the declarations add up to one and all sites lie under one longest root; it then has every site of every document, sorted, in whatever order the map is visited |
| `TableRefactor.TableRefactorPlan` | table_refactor.go:85-117 | over the statements of a workspace: a plan exists exactly when every occurrence of the name is understood, just one place creates the relation under its simple unquoted name, and one longest root covers all documents with a site; it then holds, sorted and each once, the sites of exactly the occurrences to be rewritten |
| `TableRefactor.PlannableIff` | table_refactor.go:105-107 | the sums, flags and roots that the loop gathers decide exactly that |
| `TableRefactor.CreatedOnceIff` | table_refactor.go:103-107 | the declaration counts add up to one exactly when one place of the workspace creates the relation |
| `Refactor.GatherDocuments` | table_refactor.go:91-105 | the loop's sums, roots and flags are those of the documents visited |
| `Refactor.WorkspaceRootForPath` | table_refactor.go:278-290 | the longest root that contains the path, the empty string only if none does |
| `Refactor.LongestRootOnce` | table_refactor.go:278-290 | there is only one such root, so the order of the roots does not matter |
| `Refactor.SumOne` | table_refactor.go:103-107 | the declarations add up to one exactly when one document has one and all others none |
| `Refactor.RootsAgree` | table_refactor.go:105-107 | at most one root is met exactly when all planned paths share theirs |
| `TableRefactor.CollectTableRefactorSites` | table_refactor.go:119-267 | the methods collect what the function says, statement by statement |
| `TableRefactor.CollectedSites` | table_refactor.go:119-267 | the sites are those of the occurrences to be rewritten, in order, and the declarations count the occurrences that create the relation |
| `TableRefactor.SiteIsOccurrence` | table_refactor.go:177-264 | a site is collected exactly when some occurrence of the document is rewritten there |
| `TableRefactor.DocumentSafe` | table_refactor.go:163-264 | a document is safe exactly when each of its occurrences is understood |
| `TableRefactor.Visit` | table_refactor.go:177-264 | one occurrence: a site, a declaration, an obstacle, or nothing |
| `TableRefactor.RenameLeavesNothing` | table_refactor.go:119-267 | in a safe document the sites are all there is of the name: once rewritten it occurs nowhere in any role |
| `TableRefactor.RenameIsSafeIff` | table_refactor.go:170-192 | the collector's flag: a renamed document is safe for the new name exactly when it was before and no statement with a renamed query use declares a CTE of that name anywhere |
| `TableRefactor.RenameToFresh` | table_refactor.go:119-267 | a rename to a name that occurs nowhere keeps every site and the number of declarations |
| `TableRefactor.RenameCanBeUndone` | table_refactor.go:85-117 | where a table can be renamed to a name that occurs nowhere, the plan back exists and has the same places |
| `TableRefactor.RenameCanLosePlan` | handler.go:1822-1828 | the test for an existing relation passes, and the renamed document is no longer safe |
| `TableRename.TableRenameTheorem` | handler.go:1818-1833 | on the trees of a document, with the edits of the plan: a reference keeps its meaning if and only if it is not a use at whose place a CTE of the new name is in scope, and did not name a relation of the new name already |
| `TableRename.ViewRenameTheorem` | handler.go:1807-1815 | the same for the rename of a view |
| `TableRename.RenamePreservesIff` | handler.go:1807-1833 | the same for any edits that rewrite exactly the uses of a relation |
| `TableRename.EditedMeaning` | cte_bindings.go:133-145 | place by place: an edited use denotes the CTE that the new name denotes there, if any; every other reference denotes what it did |
| `TableRename.TableEditsRewriteUses` | table_refactor.go:119-267 | the sites of a safe document rewrite exactly the references that name the table and no CTE |
| `TableRename.ViewEditsRewriteUses` | view_refactor.go:93-171 | the same for the sites of a view |
| `TableRename.OccurrenceOrigin` | table_refactor.go:163-267 | the occurrences that a statement's query contributes are those of its nodes, and nothing else |
| `TableQualifiers.QualifierKeepsIff` | handler.go:1807-1833 | qualifiers that mean a relation without an alias, by the nearest SELECT whose FROM clause bears the name: one keeps its relations, place by place, exactly when none of them is renamed and no relation is renamed to its name in a SELECT as near as they are |
| `TableQualifiers.BearsAfter` | handler.go:1807-1833 | what a FROM clause bears after the rename: what it bore, but for the relations renamed away, and the new name where it has a renamed one |
| `TableRename.ResolvedIsDeclared` | cte_bindings.go:66-98 | a name that denotes a CTE is declared as one in the same statement |
| `TableRename.CapturedOverlaps` | table_refactor.go:170-192 | a captured use makes the collector's flag go, so the flag errs on one side only |
| `TableRenameExamples.PlannedRenameCanCapture` | handler.go:1818-1833 | `CREATE TABLE T; WITH N AS (SELECT 1) SELECT * FROM T`: the rename to N is planned, no relation N exists, and the reference comes to denote the CTE |
| `TableRenameExamples.PlannedViewRenameCanCapture` | handler.go:1807-1815 | the same for a view: its sites are safe, it is created once, no relation N exists, and the reference comes to denote the CTE |
| `TableRenameExamples.OverlapCanBeHarmless` | table_refactor.go:170-192 | `CREATE TABLE T; WITH N AS (SELECT * FROM T) SELECT 1`: the flag goes, and no reference changes its meaning |
| `StoreEffects.StepEffect` | document_store.go:90-130 | what a step of any run does to a path, as if-and-only-ifs on its label and the state before: which steps move the workspace bit, which the open bit, which put a text there and which drop it; all others keep text, content and parse |
| `StoreEffects.EditEffect` | handler.go:2700-2709 | an installed edit never changes whether the file is indexed; didOpen and didChange leave the path open, didSave leaves it as it was |
| `StoreEffects.DocumentsAreParsed` | document_store.go:50-74 | in every state of every run a document is what the parser and the extractors make of its text, and carries the two bits of its path |
| `StoreEffects.ReservationIs` | document_store.go:90-101 | an edit, and a read from disk of a path that is not open, put one reservation in flight: the parsed text under the next revision |
| `StoreEffects.EditIsPublished` | document_store.go:154-186 | an installed edit that nothing overtakes is the next message to the client |
| `StoreEffects.CloseIsCleared` | handler.go:2666-2698 | a close clears the diagnostics of its path under the revision it took |
| `Encodings.DecodeIff` | text_index.go:40-46 | decoding at an offset yields the scalar value whose encoding (section 3 of RFC 3629) stands there, with its size, and one error rune exactly where none stands |
| `Encodings.PositionOfCharacter` | text_index.go:28-46 | in an encoded text the position of a character is the number of newline characters before it and the UTF-16 length (section 2.1 of RFC 2781) of what precedes it on its line |
| `Encodings.BoundaryIff` | text_index.go:28-78 | the decode boundaries of an encoded text are exactly the beginnings and ends of its characters |
| `Encodings.OutsideIsNearest` | text_index.go:28-32 | an offset outside the text counts as its nearest end; the line is the number of line starts up to the offset |
| `PathsAndNames.InsideIff` | handler.go:2964-2972 | a path lies in a folder exactly when the components of the folder begin those of the path |
| `PathsAndNames.FoldIff` | cte_bindings.go:86-112 | names fold alike exactly when they are the same but for the case of ASCII letters |
| `PathsAndNames.FoldedIs` | cte_bindings.go:86-112 | a folded name is the same name but for case, and has no lower-case ASCII letter |
| `PathsAndNames.DottedOne` | ddl_facts.go:19-25 | a path is written as its names in order, with one dot between each two |
| `SortedOrders.CoveredAscend` | table_refactor.go:108-115 | the edits of a document in the plan of a table rename stand in the order of their ranges |
| `SortedOrders.InNumbers` | handler.go:884-898 | the comparisons of positions and ranges, spelled out on lines and characters |
| `SortedOrders.AliasSitesAscend` | alias_bindings.go:52-57 | the sites and the member sites of an alias index stand in the order of their starts |
| `SortedOrders.CteSitesAscend` | cte_bindings.go:36-39 | the sites of a CTE index stand in the order of their starts |
| `SortedOrders.ColumnSitesAscend` | cte_column_bindings.go:71-74 | the sites of a column index stand in the order of their starts |
| `SortedOrders.OutlineOrder` | cte_symbols.go:33-38 | outline bindings stand in the order of their starts, the larger first |
| `SortedOrders.ChildrenAscend` | cte_symbols.go:81-86 | the children of an outline symbol stand in the order of their ranges |
| `SortedOrders.PlanAscends` | table_refactor.go:108-115 | the edits of a planned rename stand in the order of their ranges, document by document |
| `SortedOrders.TokensAscend` | handler.go:2450-2487 | semantic tokens are encoded in the order of their positions |
| `SortedOrders.StringsAlphabetic` | semantic_diagnostics.go:319-319 | strings are ordered letter by letter, a beginning first |
| `SortedOrders.DiagnosticsAscend` | semantic_diagnostics.go:119-125 | diagnostics stand in the order of their ranges, and of their codes where those are equal |
| `SemanticTokens.DecodedGroups` | handler.go:2520-2535 | there is a token for every complete group of five numbers, moved on from the one before by 32-bit sums |
| `SemanticTokens.KeepsCrossing` | handler.go:2536-2552 | filtering keeps exactly the tokens that start before the end of the range and end, at the 32-bit sum of start and length, after its start; in their order |
| `SemanticTokens.VisibleByToken` | handler.go:2460-2487 | encoding keeps, in order, exactly the valid tokens of a known type, each with its position, length, type number and the bits that its known modifiers set |
| `CallScanner.ScanEnds` | handler.go:684-687 | the scan takes the tokens up to the first that is an error or starts at the cursor or after it |
| `CallScanner.NameBetweenQuotes` | handler.go:676-708 | the name of a call is what stands between the outer back quotes of its token, in upper case |
| `CteSymbols.RenderedChildren` | cte_symbols.go:64-95 | below the symbol of a binding are one field for each column of a known shape and the symbols of its children, nothing else |
| `CteReferences.ResolveIff` | cte_bindings.go:66-122 | the lexical rule by places: a name denotes the last CTE that its place sees in the innermost query where it sees any |
| `CteReferences.IndexIff` | cte_bindings.go:31-122 | the CTE index by the kinds of the nodes: a binding for each CTE that a query begins with, each once, holding exactly the one-name tables that denote it; and its sites |
| `AliasReferences.DeclaredIff` | alias_bindings.go:129-216 | the bindings of the index are exactly the names that the tables of FROM clauses declare, with what they stand for, by the kinds of the tables |
| `AliasReferences.QualifierIff` | alias_bindings.go:97-127 | which nodes carry a qualifier: a star with one, and a path of two names or more that is no FROM path of the nearest SELECT |
| `AliasReferences.ReferredIff` | alias_bindings.go:97-127 | a range is among the references and the reference sites of a binding exactly when an identifier of that range qualifies something and the lexical rule binds it to the declaration |
| `AliasReferences.MemberIff` | alias_bindings.go:97-127 | the member sites of a binding are exactly the second names of the paths whose head is bound to it |
| `AliasRenameExamples.StarIsRenamed` | alias_bindings.go:120-123 | SELECT t.* FROM A AS t: the star is the only reference of t, and renaming t to u rewrites the declaration and the star |
| `SelectUses.ClausesIff` | select_alias_bindings.go:97-105 | the clauses of an entry are exactly the GROUP BY and HAVING of its SELECT and the ORDER BY of the query whose body it is |
| `SelectUses.PlacesIff` | select_alias_bindings.go:106-161 | the places of an entry are exactly the lone identifiers and paths in those clauses outside nested queries |
| `SelectUses.JointByPlaces` | select_alias_bindings.go:31-161 | the joint index by places: a binding for each named item, its references and sites exactly the names in the clauses of its SELECT that name it alone and are no path of a table alias, and the ambiguous ranges exactly the table-alias paths and the shared names there |
| `QueryItems.ShapeByItems` | ddl_facts.go:166-194 | the shape of a query by the items of its list: known exactly when every item gives a name and no two the same, and then the columns are the items in order |
| `ColumnClaims.BoundColumn` | cte_column_bindings.go:30-75 | each binding of a column index is a column of an owner of known shape and holds exactly the uses of its SELECT alias and the members that name it through an alias of the owner |
| `ColumnClaims.ColumnBound` | derived_column_bindings.go:30-75 | every such column has its binding |
| `RelationReferences.ReportedIff` | handler.go:1529-1557 | the references to a relation are exactly the ranges where its name is written and no CTE collects a reference |
| `RelationReferences.ReferencesIff` | handler.go:1537-1553 | in a parsed document these are the places of that name where it denotes no CTE |
| `RelationReferences.ViewCollectedIff` | view_refactor.go:93-171 | what the collector of a view rename returns: the names in the DDL with the unquoted uses that no CTE owns, and the flag exactly when no use is quoted or part of a path |
| `TypeMatches.TableMultiplicity` | alias_bindings.go:430-443 | how often a place is found among the table columns: the number of pairs of a table of the name and a column of the name with that type |
| `TypeMatches.ViewMultiplicity` | alias_bindings.go:445-470 | the same for the columns of views of known shape |
| `TypeMatches.MemberFinds` | query_column_types.go:15-60 | a member answers with a base column exactly when its alias stands for a name, one table column of the workspace answers to it and no view column does |
| `TypeMatches.MemberFollows` | query_column_types.go:15-60 | it leads on exactly to the first column of its name in its known query, or to the only view column where no table column answers |
| `TypeMatches.StepIs` | query_column_types.go:62-83 | a column leads where the first member that covers its source leads; a source that no member covers answers with the only table column of its name |
| `TypeMatches.KeyIff` | query_column_types.go:60-68 | the visited set takes two columns for one exactly when they stand in the same document at the same place under the same name but for case |
| `DiagnosticReports.MemberReports` | semantic_diagnostics.go:47-110 | which diagnostic a member gives, by the CTE, derived table, table or view that its alias stands for |
| `DiagnosticReports.ReturnedCount` | semantic_diagnostics.go:47-110 | how often a diagnostic is returned: as often as the analysis of the text holds it and members give it |
| `DiagnosticReports.TableMemberFlagged` | semantic_diagnostics.go:80-103 | a member of the only table of a name is reported exactly when no column of that table has its name but for case |
| `DiagnosticReports.ViewMemberFlagged` | semantic_diagnostics.go:80-110 | the same for the only view of a name: reported exactly when its shape is known and has no such column |
| `DiagnosticReports.OtherMemberUnflagged` | semantic_diagnostics.go:80-103 | no report of an unknown column when not exactly one table or view has the name |
| `TableOccurrences.CollectedIff` | table_refactor.go:119-267 | what the collector of a table rename returns: the sites are the rewritten names, the flag stays exactly when nothing is in the way, by the roles of the names |
| `TableOccurrences.PlanIff` | table_refactor.go:85-117 | there is a plan exactly when nothing is in the way, the table is created at one place and all documents with a rewritten name lie under one root |

## Left out

- Parsing and printing by the external memefish library, formatting, transport, logging, capability tables, directory walks and reads from disk: the parser and the extractors are functions given as parameters, disk reads arbitrary text or failure.
- Completion, hover, signatures, code lenses, folding, inlay hints and workspace symbols: presentation with claims about single branches.
- Unicode case mapping: one ASCII mapping stands for both ToUpper and EqualFold, which differ on a few other letters.
- SHA-256 and JSON are taken as injective; revision counters, positions and lengths are unbounded, except in `SemanticTokens`, where 32-bit arithmetic is the point.
- Snapshots are compared as values, not by identity; revisions make the two comparisons agree. Links to bindings and outline nodes are positions in lists.
- The shapes of queries: `QueryShapes` takes the SELECT list off the query node; expanding SELECT * inside a shape is left out, as the repository does.
- DDL statements are occurrences in a few roles (creates, uses, queries, alters, forbids, mentions); how each statement kind maps to a role is not modelled. Queries are trees, and their occurrences are read off the nodes (`TableRename.StatementOccurrences`); which identifiers are written without quotes is a parameter.
- The workspace loop of a view rename: it is the loop of a table rename (`Refactor.RefactorPlan`); only its collector has a model of its own.
- Edits are replacements in the tree; that replacing text in a file and parsing again gives that tree is not modelled.
- Duplicate-CTE, duplicate-alias and ordinal diagnostics, and the splitting of syntax errors, enter `Diagnostics` as given parts of the analysis of a text.
- Merging table and CTE symbols into one outline, and references merged over documents: concatenation and a sort.
- AliasRename.RenameTheorem: that no two names have the same range is assumed, as ranges of parsed names are disjoint; `AliasReindex.ReindexTheorem` assumes the same.
- AliasReindexFlags.FlagsTheorem: that members have ranges of their own is assumed; the members agree as a multiset, as nothing is promised about ties of the sort.
- SelectAliasReindex.RenameTheorem: that each identifier stands in one piece of text into which no other one reaches is assumed (`Texts.OneText`; an item without an alias takes its name from its own expression), and that a path in a clause has two names or more, as in any parsed text. `SelectAliasRename.RenameTheorem`, the layer for one SELECT, assumes what `SelectAliasDocument.EntryNamesApart` derives from that. Star expressions inside clauses have no node.
- ColumnReindex.RenameTheorem: about the qualified members, compared by their ranges, and about no other reference of a column; `ColumnSelects.SelectTheorem` is about those inside the query, which are uses of SELECT aliases. Both assume one text, as above. `ColumnRename.MembersKeepIff` and `ColumnRename.ReindexTheorem`, the layers below, take the document after as given.
- ColumnSelects.SelectTheorem: the order of the ambiguous paths and of the sites is not compared; lookups go by range.
- TableQualifiers.QualifierKeepsIff: the binder knows only aliases that are written; that a relation without one lends its name to qualifiers is the language's rule, stated in the module. That longer paths, qualifiers and aliases have ranges of their own is assumed.
- TableRename.TableRenameTheorem: that relation names, CTE names and names in DDL have ranges of their own is assumed; `TableRename.ViewRenameTheorem` assumes the same.
- ColumnBindings.RecordedIff: that members have ranges of their own, apart from the references of SELECT aliases, is assumed.
- DiagnosticReports.TableMemberFlagged: that the member has a range of its own, and no error of the queries an unknown column there, is assumed; `DiagnosticReports.ViewMemberFlagged` and `.OtherMemberUnflagged` assume the same, `.MemberReports` and `.ReturnedCount` nothing.
- RelationReferences.ReferencesIff: that relations have ranges of their own is assumed; `RelationReferences.ReportedIff` assumes nothing.
- QueryColumnTypes.TypeDefinition: the second of its two statements needs facts with equal keys to have equal sources, which holds for names at distinct positions of one text; the first needs nothing.
