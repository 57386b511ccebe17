# DEH-Capella core, modelled in Dafny

DEH-Capella is a Data Exchange Hub adapter. It moves model content both ways between a Capella model (the DST side) and a COMET Hub iteration:

- Capella components and requirements are mapped to Hub element definitions and requirements specifications.
- Hub element definitions and requirements are mapped back to Capella components and requirements.
- Capella traces and Hub binary relationships are mapped in both directions.

This project models the adapter's core as immutable Dafny values and pure functions, and proves what that core promises. The core covers:

- the mapping rules;
- the Capella transaction service, which keeps clones and new elements apart from the open Capella session;
- the stereotype and enumeration helpers;
- the controller that runs mappings and selects results for transfer;
- the mapping-configuration dialogs and their rows;
- the impact panel's save/load of mapping configurations.

## Modules

| module | file | what it holds |
|---|---|---|
| Wrappers | wrappers.dfy | `Option` and `Result` |
| Sequences | sequences.dfy | filtering and searching helpers on sequences |
| Text | text.dfy | ASCII case folding and ignore-case comparison |
| Capella | capella.dfy | Capella elements: components, ports, properties, requirements, packages, traces |
| Hub | hub.dfy | Hub things: element definitions and usages, parameters, requirements, categories, relationships |
| ShortNames | short_names.dfy | short-name normalisation, current and older versions |
| Stereotypes | stereotypes.dfy | children, ownership and the search for a requirement's specification package |
| Transactions | transactions.dfy | the clone/new-element registry and target architectures |
| Enumerations | enumerations.dfy | component and requirement types and their lookups |
| Rows | rows.dfy | mapped-element rows and object-browser rows |
| Categories | categories.dfy | category lookup and creation shared by the Capella-to-Hub rules |
| Dialogs | dialogs.dfy | the mapping-configuration dialog base: selection, status and the "map to new" checkbox |
| DstToHubDialog | dst_to_hub_dialog.dfy | pre-mapping Capella elements to Hub things |
| LegacyDstDialog | legacy_dst_dialog.dfy | the older Capella-to-Hub dialog |
| HubToDstDialog | hub_to_dst_dialog.dfy | pre-mapping Hub things to Capella elements |
| Controller | controller.dfy | the adapter controller: mapping, merging results, selection for transfer |
| LegacyController | legacy_controller.dfy | the older controller and its transfer |
| Traces | traces.dfy | both trace/binary-relationship rules |
| ComponentToElement | component_to_element.dfy | components to element definitions and usages |
| ElementToComponent | element_to_component.dfy | element definitions to components |
| RequirementToSpecification | requirement_to_specification.dfy | Capella requirements to Hub requirements specifications |
| SpecificationToRequirement | specification_to_requirement.dfy | Hub requirements specifications to Capella requirements |
| ImpactPanel | impact_panel.dfy | the list of saved mapping configurations and the save/load answer |

## How the source is represented

- Java object identity is a `ref` number carried by each record. A clone gets a fresh `ref` and keeps the element's `id`.
- Hub lookups, open Capella sessions, the mapping engine's output, Hub writes and refresh results are not modelled as code. Each becomes a parameter of the operation that uses it.
- Every null the source tests becomes an `Option`. A thrown exception becomes a `Result` failure, or a `None` where no message is needed.

The repository holds two versions of several components.

- `src/...` holds the older controller, dialog and short-name code. Their modules are `LegacyController`, `LegacyDstDialog` and `ShortNames.LegacyShortName`.
- `DEHCapellaAdapter/src/...` holds the newer code. Everything else models it.

Some parts of the older Capella-to-Hub dialog are the same code as the newer dialog, so they are modelled once:

- `UpdateRowStatus` (DstMappingConfigurationDialogViewModel.java:423-445) is `Dialogs.UpdateRowStatus`.
- `UpdateMappedElements` (294-320) is `DstToHubDialog.UpdateMappedElements`.
- The older checkbox handler (581-606) is `Dialogs.CheckBoxChangedClearingHub`.

The Hub-to-Capella dialog's checkbox handler (HubToDstMappingConfigurationDialogViewModel.java:376-393) is the same code as the Capella-to-Hub one (DstToHubMappingConfigurationDialogViewModel.java:332-349). `Dialogs.CheckBoxChangedAsWritten` stands for both.

### Assumptions about code outside this model

`Utils.Ref`, `Utils.Operators` and the dialog base class's `AreShortNamesEquals` are not part of this model. They are read as follows:

- `Ref.HasValue()` holds exactly when the held value is not null.
- `AreTheseEquals(a, b)` is null-safe equality. `AreTheseEquals(a, b, true)` is null-safe equality ignoring case.
- `AreShortNamesEquals` is exact equality of short names.
- Java's `equalsIgnoreCase` and `toLowerCase` are modelled as ASCII case folding.
- A newly constructed identifier map has revision 0.

`CapellaArchitecture.AreSameArchitecture` (DEHCapellaAdapter/src/Enumerations/CapellaArchitecture.java:129-132) asks Capella for the root block architecture of an element. Capella's own code is not part of this model, so each element carries that root as a field (`root`), and the test is `root == Some(architecture)`.

## Model

| member | source | states |
|---|---|---|
| ShortNames.GetShortName | DEHCapellaAdapter/src/Utils/Stereotypes/StereotypeUtils.java:66-69 | the short name is no longer than the name and holds only lower-case ASCII letters, digits and '-' |
| ShortNames.GetShortNameIsLoweredFilter | DEHCapellaAdapter/src/Utils/Stereotypes/StereotypeUtils.java:66-69 | the short name is the name with every character other than a letter, digit or '-' removed, then lower-cased |
| ShortNames.GetShortNameFixedPoint | DEHCapellaAdapter/src/Utils/Stereotypes/StereotypeUtils.java:66-69 | a string is its own short name exactly when all its characters are lower-case letters, digits or '-' |
| ShortNames.GetShortNameIdempotent | DEHCapellaAdapter/src/Utils/Stereotypes/StereotypeUtils.java:66-69 | taking the short name of a short name changes nothing |
| ShortNames.GetShortNameIsSubsequence | DEHCapellaAdapter/src/Utils/Stereotypes/StereotypeUtils.java:66-69 | the short name is a subsequence of the lower-cased name |
| ShortNames.LegacyShortName | src/Utils/Stereotypes/StereotypeUtils.java:39-42 | the older short name is no longer than the name and holds only ASCII letters and digits |
| ShortNames.LegacyShortNameIsFilter | src/Utils/Stereotypes/StereotypeUtils.java:39-42 | the older short name keeps exactly the letters and digits of the name, in order and with their case |
| ShortNames.LegacyShortNameIdempotent | src/Utils/Stereotypes/StereotypeUtils.java:39-42 | the older short name of its own result is unchanged |
| Stereotypes.GetChildren | DEHCapellaAdapter/src/Utils/Stereotypes/StereotypeUtils.java:101-119 | no contents give no children; otherwise the children are the contents that are instances of the class, in order, and every such content is kept |
| Stereotypes.IsOwnedByIff | DEHCapellaAdapter/src/Utils/Stereotypes/StereotypeUtils.java:162-186 | the ownership test holds exactly when some descendant reached through Capella elements carries the element's id, and never for a parent without contents |
| Stereotypes.PackageRun | DEHCapellaAdapter/src/Utils/Stereotypes/StereotypeUtils.java:197-217 | the number of leading requirement packages of the container chain, the next link not being one |
| Stereotypes.PossibleSpecificationParent | DEHCapellaAdapter/src/Utils/Stereotypes/StereotypeUtils.java:197-217 | the search finds a package exactly when the chain starts with requirement packages and then reaches a non-package, and the package found is the outermost of that run; it diverges exactly when the direct container is not a requirement package |
| Stereotypes.SearchDivergesAtStart | DEHCapellaAdapter/src/Utils/Stereotypes/StereotypeUtils.java:204-213 | when the direct container is not a requirement package the loop body leaves the state as it was, so the loop is still running after any number of passes |
| Stereotypes.SearchTerminates | DEHCapellaAdapter/src/Utils/Stereotypes/StereotypeUtils.java:197-217 | in every other case the loop stops within one pass more than the chain is long and reports the package the search finds |
| Stereotypes.SearchGuardedTerminates | DEHCapellaAdapter/src/Utils/Stereotypes/StereotypeUtils.java:197-217 | the loop with a guard for the first pass always stops and reports a parent exactly when the search finds one |
| Stereotypes.SpecificationParent | DEHCapellaAdapter/src/Utils/Stereotypes/StereotypeUtils.java:197-217 | the parent stored is present exactly when the search finds one, and is then that requirement package |
| Transactions.GetClone | DEHCapellaAdapter/src/Services/CapellaTransaction/CapellaTransactionService.java:128-131 | a clone is returned exactly when the element's id is registered, and it is the registered one |
| Transactions.GetNew | DEHCapellaAdapter/src/Services/CapellaTransaction/CapellaTransactionService.java:143-146 | a new element is returned exactly when its id is registered, and it carries that id |
| Transactions.IsClonedOrNew | DEHCapellaAdapter/src/Services/CapellaTransaction/CapellaTransactionService.java:202-215 | true exactly for a Capella element that is the registered clone or the registered new element |
| Transactions.GetOriginal | DEHCapellaAdapter/src/Services/CapellaTransaction/CapellaTransactionService.java:239-242 | a registered clone gives its original, with the same id and another object; any other element is returned as it is |
| Transactions.Clone | DEHCapellaAdapter/src/Services/CapellaTransaction/CapellaTransactionService.java:157-174 | null gives null and leaves the registry alone; an id already cloned gives the stored clone and adds nothing; otherwise a fresh copy with the same id is registered with the original; either way the element handed out is recognised as a clone |
| Transactions.CloneRoundTrip | DEHCapellaAdapter/src/Services/CapellaTransaction/CapellaTransactionService.java:168-172 | after cloning, the copy is recognised as a clone, its original is the element cloned, and the original itself is not a clone |
| Transactions.Create | DEHCapellaAdapter/src/Services/CapellaTransaction/CapellaTransactionService.java:268-302 | a successful creation registers a fresh new element of the class, named when a name is given, and records no architecture; a failed one gives null and changes nothing |
| Transactions.CreateForArchitecture | DEHCapellaAdapter/src/Services/CapellaTransaction/CapellaTransactionService.java:254-259 | fails exactly when the factory builds nothing, where registering the architecture of the null element throws; otherwise a fresh new element with the name, whose architecture is recorded unless its id already had one |
| Transactions.GetTargetArchitecture | DEHCapellaAdapter/src/Services/CapellaTransaction/CapellaTransactionService.java:311-314 | an architecture is returned exactly when one is registered for the element's id |
| Transactions.RegisterTargetArchitecture | DEHCapellaAdapter/src/Services/CapellaTransaction/CapellaTransactionService.java:323-326 | the element keeps the architecture registered first, and no other entry changes |
| Transactions.RegisterTargetArchitectureFirstWins | DEHCapellaAdapter/src/Services/CapellaTransaction/CapellaTransactionService.java:323-326 | registering a second architecture for the same element changes nothing |
| Transactions.Reset | DEHCapellaAdapter/src/Services/CapellaTransaction/CapellaTransactionService.java:332-337 | afterwards no element is cloned or new and none has a target architecture |
| Transactions.Commit | DEHCapellaAdapter/src/Services/CapellaTransaction/CapellaTransactionService.java:392-401 | the answer is whether the body succeeded, and the registry is reset either way |
| Transactions.GetClonesOf | DEHCapellaAdapter/src/Services/CapellaTransaction/CapellaTransactionService.java:103-108 | the clones returned are exactly the registered ones whose original is an instance of the class |
| Controller.ChangeMappingDirection | DEHCapellaAdapter/src/DstController/DstController.java:318-326 | the direction becomes the other one and nothing else changes |
| Controller.ChangeMappingDirectionTwice | DEHCapellaAdapter/src/DstController/DstController.java:318-326 | changing the direction twice gives back the state |
| Controller.SelectAllOfKind | DEHCapellaAdapter/src/DstController/DstController.java:1622-1637 | selected things of other kinds stay and none is added; on remove no thing of the kind is left (the requirements specification kind standing for requirements); on add every Hub element of the Capella-to-Hub results with the kind is selected and nothing else of the kind is |
| Controller.SelectAllOfKindSettles | DEHCapellaAdapter/src/DstController/DstController.java:1622-1637 | after a select-all or deselect-all of a kind, another one of the same kind gives what it would have given alone |
| Controller.SelectAllMappedElements | DEHCapellaAdapter/src/DstController/DstController.java:1644-1654 | on remove the Hub-to-Capella selection is empty; on add it is the Capella element of every Hub-to-Capella row, nulls included, in row order |
| Controller.AddOrRemoveAllFromSelectedThingsToTransfer | DEHCapellaAdapter/src/DstController/DstController.java:1604-1614 | without a class kind only the Hub-to-Capella selection changes, with one only the Capella-to-Hub selection does |
| Controller.TransferableTraces | DEHCapellaAdapter/src/DstController/DstController.java:436-446 | a trace is listed exactly when it is among the mapped traces and both its ends are selected elements |
| Controller.AddOrRemoveTracesForTransfer | DEHCapellaAdapter/src/DstController/DstController.java:436-446 | the selected entries that are not traces are kept as they are, and the selected traces become exactly the mapped traces whose source and target are both selected |
| Controller.AddOrRemoveTracesForTransferIdempotent | DEHCapellaAdapter/src/DstController/DstController.java:436-446 | refreshing the selected traces a second time changes nothing |
| Controller.AddOrRemoveBinaryRelationshipForTransferAsWritten | DEHCapellaAdapter/src/DstController/DstController.java:451-462 | the earlier selection is kept in front, relationships included, and every entry appended is a mapped relationship |
| Controller.AddOrRemoveBinaryRelationshipForTransfer | DEHCapellaAdapter/src/DstController/DstController.java:451-462 | the selected things are kept, and every selected relationship is a mapped one whose two ends are selected things |
| Controller.AddOrRemoveBinaryRelationshipForTransferIdempotent | DEHCapellaAdapter/src/DstController/DstController.java:451-462 | the corrected refresh applied a second time changes nothing |
| Controller.RelationshipSelectedTwice | DEHCapellaAdapter/src/DstController/DstController.java:451-462 | with two selected things and one relationship between them, two refreshes as written select the relationship twice, the corrected ones once |
| Controller.TryMap | DEHCapellaAdapter/src/DstController/DstController.java:650-665 | the result flag is raised exactly on empty input, and the attempt succeeds exactly when the engine answers with a list, which becomes the output |
| Controller.MapAsWritten | DEHCapellaAdapter/src/DstController/DstController.java:606-640 | the call throws exactly when the engine gives Capella-to-Hub rows, one of them without a Hub element, while earlier results exist; otherwise new Capella-to-Hub rows are appended after all the old ones and the selection is cleared; without rows nothing changes and the flag is reported |
| Controller.Map | DEHCapellaAdapter/src/DstController/DstController.java:606-640 | new rows are appended and replace exactly the earlier rows mapping the same Hub element (Capella to Hub) or the same Capella element (Hub to Capella); the matching selection is cleared; with no rows, or Hub-to-Capella rows lacking a Capella element, nothing changes and the flag is reported |
| Controller.MapKeepsStaleRow | DEHCapellaAdapter/src/DstController/DstController.java:619-621 | remapping an element already mapped to a Hub element keeps the old row beside the new one as written, and leaves only the new row as corrected |
| Controller.MapIdempotent | DEHCapellaAdapter/src/DstController/DstController.java:606-640 | mapping the same rows with Hub elements twice gives what mapping them once gives |
| Controller.MapTracesAsWritten | DEHCapellaAdapter/src/DstController/DstController.java:569-594 | it throws exactly when the engine does not answer with a list; otherwise the mapped relationships (Capella to Hub, keyed by identifier) or traces (Hub to Capella, keyed by summary) are merged with the output, and the flag is reported |
| Controller.MapTraces | DEHCapellaAdapter/src/DstController/DstController.java:569-594 | agrees with the code as written whenever that does not throw, and otherwise leaves the state alone |
| Controller.MapTracesReplacesByKey | DEHCapellaAdapter/src/DstController/DstController.java:580-581 | after a merge no earlier relationship or trace shares its key with one of the new ones |
| Controller.MapTracesWithoutList | DEHCapellaAdapter/src/DstController/DstController.java:575 | when the engine answers with no list, the code as written throws and the corrected version leaves everything unchanged |
| Controller.UpdateChildrenOfType | DEHCapellaAdapter/src/DstController/DstController.java:966-975 | the originals stay in front; exactly the clones whose identifier no original has (ignoring case) are appended; afterwards every clone's identifier is present |
| Controller.UpdateChildrenOfTypeIdempotent | DEHCapellaAdapter/src/DstController/DstController.java:966-975 | merging the same clones a second time adds nothing |
| Controller.UpdateInterfaces | DEHCapellaAdapter/src/DstController/DstController.java:1223-1230 | every interface left is a clone or an original that no clone replaces; every such original, and the last clone of each identifier, is present |
| Controller.TryGetElementBy | DEHCapellaAdapter/src/DstController/DstController.java:1694-1710 | the element found is of the requested class, satisfies the predicate and belongs to an open session; nothing is found exactly when no session holds such an element |
| Controller.TryGetElementByName | DEHCapellaAdapter/src/DstController/DstController.java:1664-1669 | the element found is a named element of the class whose name equals the thing's name or short name ignoring case; nothing is found exactly when no session holds one |
| LegacyController.ChangeMappingDirection | src/DstController/DstController.java:210-218 | the direction toggles and nothing else changes |
| LegacyController.SelectAllOfKind | src/DstController/DstController.java:582-596 | selected things of other kinds are kept; on remove none of the kind is left; on add the selected things of the kind are exactly the Hub elements of that kind, and a row without a Hub element makes the call throw |
| LegacyController.SelectAllMappedElements | src/DstController/DstController.java:603-613 | on remove the selection is empty, on add it is every Hub-to-Capella row's Capella element in row order |
| LegacyController.AddOrRemoveAllFromSelectedThingsToTransfer | src/DstController/DstController.java:564-574 | without a class kind only the Hub-to-Capella side changes and the call cannot throw; with one only the other side changes |
| LegacyController.SelectAllTestSequence | tests/DstController/DstControllerTestFixture.java:127-143 | the select and deselect sequence on one element definition and one requirements specification leaves 1, 2, 1, 0 and 0 selected things and an empty Hub-to-Capella selection |
| LegacyController.AddOrUpdateIteration | src/DstController/DstController.java:539-554 | the thing is added exactly when no thing with its identifier is present, at the end; the earlier content stays in front, and distinct identifiers stay distinct |
| LegacyController.AddOrUpdateIterationIdempotent | src/DstController/DstController.java:539-554 | adding the same thing twice adds it once |
| LegacyController.TransferToHub | src/DstController/DstController.java:326-354 | success exactly when the write goes through and both refreshes answer true, the second refresh running only after a successful first; the Capella-to-Hub selection is cleared whatever happens |
| LegacyController.Transfer | src/DstController/DstController.java:299-318 | Hub to Capella reports true without touching the Hub; Capella to Hub reports what the transfer to the Hub reports; both map results are emptied by the reload either way |
| LegacyController.TransferTestSequence | tests/DstController/DstControllerTestFixture.java:106-115 | Hub to Capella succeeds, then Capella to Hub fails while the refresh answers false and succeeds once it answers true, with three refreshes in all |
| Dialogs.UpdateRowStatus | DEHCapellaAdapter/src/ViewModels/Dialogs/MappingConfigurationDialogViewModel.java:306-328 | a row that creates a new target is new; otherwise a row whose Hub element is already mapped as that class is an existing mapping; otherwise one whose Hub element the Hub holds is an existing element; every other row has no status; nothing else about the row changes |
| Dialogs.UpdateRowStatusForgetsOldStatus | DEHCapellaAdapter/src/ViewModels/Dialogs/DstMappingConfigurationDialogViewModel.java:423-445 | the status given does not depend on the status the row had, so a second update changes nothing (the older dialog's decision is the same code) |
| Dialogs.UpdateSelected | DEHCapellaAdapter/src/ViewModels/Dialogs/MappingConfigurationDialogViewModel.java:287-297 | only the selected row is replaced; the selection and the other rows stay |
| Dialogs.SetSelectedMappedElement | DEHCapellaAdapter/src/ViewModels/Dialogs/MappingConfigurationDialogViewModel.java:230-245 | the row picked becomes the selection and is flagged selected, and the checkbox is enabled exactly when that row is not an existing mapping |
| Dialogs.SetHubElementOfKind | DEHCapellaAdapter/src/ViewModels/Dialogs/MappingConfigurationDialogViewModel.java:287-297 | the selected row holds the thing as its Hub element, no longer creates a new one and so is not new; the checkbox is disabled; no other row and no other field of the row changes |
| Dialogs.SetHubElement | DEHCapellaAdapter/src/ViewModels/Dialogs/MappingConfigurationDialogViewModel.java:252-278 | nothing changes with no selection, with an existing mapping selected, or for a thing the row does not take; otherwise the selected row takes the thing as an element definition, requirements specification or requirement |
| Dialogs.SetHubElementIdempotent | DEHCapellaAdapter/src/ViewModels/Dialogs/MappingConfigurationDialogViewModel.java:252-297 | setting the same Hub element a second time changes nothing |
| Dialogs.CheckBoxChanged | DEHCapellaAdapter/src/ViewModels/Dialogs/MappingConfigurationDialogViewModel.java:387-398 | with no selection nothing changes; otherwise only the selected row's creation flag changes, to the box's value |
| Dialogs.RefreshStatus | DEHCapellaAdapter/src/ViewModels/Dialogs/DstToHubMappingConfigurationDialogViewModel.java:341-348 | only a row whose Hub element is an element definition or a requirements specification has its status worked out again, for that class; other rows are left as they are |
| Dialogs.CheckBoxChangedAsWritten | DEHCapellaAdapter/src/ViewModels/Dialogs/DstToHubMappingConfigurationDialogViewModel.java:332-349 | the call throws exactly when nothing is selected; otherwise the selected row creates a new target exactly when the box is ticked and keeps its Hub element whatever the box says |
| Dialogs.CheckBoxChangedClearingHub | DEHCapellaAdapter/src/ViewModels/Dialogs/DstMappingConfigurationDialogViewModel.java:581-606 | with no selection nothing changes; otherwise the row creates a new target exactly when ticked, loses its Hub element (keeping its status) exactly when it is ticked while not creating one, and no other row changes |
| Dialogs.TickingNewKeepsHubElement | DEHCapellaAdapter/tests/ViewModels/Dialogs/DstMappingConfigurationDialogViewModelTestFixture.java:165-169 | ticking "new" on a component row mapped to an element definition keeps the element definition as the newer handler is written and drops it in the older order |
| DstToHubDialog.RowKindOf | DEHCapellaAdapter/src/ViewModels/Dialogs/DstToHubMappingConfigurationDialogViewModel.java:131-138 | components get element definition rows, requirements Capella requirement rows, and any other element no row kind, where the cast to a requirement fails |
| DstToHubDialog.UpdateMappedElements | DEHCapellaAdapter/src/ViewModels/Dialogs/DstToHubMappingConfigurationDialogViewModel.java:122-148 | fails exactly when no row maps an element with that id and the element is neither a component nor a requirement; otherwise the selected row afterwards is the first one mapping an element with that id, a row is added, at the end, exactly when none did, no other row changes, and the checkbox follows the selected row's status |
| DstToHubDialog.UpdateMappedElementsKeepsIdsUnique | DEHCapellaAdapter/src/ViewModels/Dialogs/DstMappingConfigurationDialogViewModel.java:294-320 | a pick that succeeds never makes rows map one Capella element twice, and picking the same element again succeeds and adds no row (the older dialog has the same code) |
| DstToHubDialog.PreMappedRow | DEHCapellaAdapter/src/ViewModels/Dialogs/DstToHubMappingConfigurationDialogViewModel.java:219-223 | a pre-mapped row creates its Hub thing exactly when the lookup says so and its status is then new, otherwise existing |
| DstToHubDialog.TryGetElementDefinition | DEHCapellaAdapter/src/ViewModels/Dialogs/DstToHubMappingConfigurationDialogViewModel.java:238-264 | nothing is found exactly when a row already maps the component; otherwise the first element definition with the component's name, or, when none has it, a new one with the name and its short name, flagged for creation |
| DstToHubDialog.SpecificationFor | DEHCapellaAdapter/src/ViewModels/Dialogs/DstToHubMappingConfigurationDialogViewModel.java:275-324 | the specification holding a requirement of the same name is used, or nothing when a row already maps the requirement to it; without one the result is always flagged for creation |
| DstToHubDialog.MappedToAsWritten | DEHCapellaAdapter/src/ViewModels/Dialogs/DstToHubMappingConfigurationDialogViewModel.java:288-289 | the search of the rows as written never hangs; it throws exactly when a row it reads before any match has no Hub thing, or has the Hub thing sought and no Capella element; when it ends it answers whether some row maps the requirement to the specification |
| DstToHubDialog.MappedToAsWrittenExtended | DEHCapellaAdapter/src/ViewModels/Dialogs/DstToHubMappingConfigurationDialogViewModel.java:288-289 | rows added behind, each with a Hub thing and a Capella element, do not change whether the search throws |
| DstToHubDialog.TryGetRequirementSpecificationAsWritten | DEHCapellaAdapter/src/ViewModels/Dialogs/DstToHubMappingConfigurationDialogViewModel.java:275-324 | the specification holding a requirement of the same name is used, or nothing when a row already maps the requirement to it; that search throws exactly when a row it reads before any match has no Hub thing, or has the specification's Hub thing and no Capella element; without such a specification, the lookup never returns exactly when the requirement's direct container is not a requirement package, and otherwise always makes a new specification named after the package the search finds or "new RequirementsSpecification", with its short name |
| DstToHubDialog.TryGetRequirementSpecification | DEHCapellaAdapter/src/ViewModels/Dialogs/DstToHubMappingConfigurationDialogViewModel.java:275-324 | with a specification holding a requirement of the same name, that specification unless a row maps the requirement to it, also past rows the code as written cannot read; without one, an existing specification named like the package is reused; where the code as written never returns, a new specification with the default name; in every other case the result as written |
| DstToHubDialog.ParentSpecificationIgnored | DEHCapellaAdapter/src/ViewModels/Dialogs/DstToHubMappingConfigurationDialogViewModel.java:305 | a requirement whose package has a same-named specification in the Hub gets a second new specification as written, and the existing one when corrected |
| DstToHubDialog.LooseRequirementHangs | DEHCapellaAdapter/src/ViewModels/Dialogs/DstToHubMappingConfigurationDialogViewModel.java:300-304 | a requirement held directly by something other than a requirement package, with no specification holding its name, makes the lookup as written hang, and the corrected one make a new default-named specification |
| DstToHubDialog.GetMappedElementRowAsWritten | DEHCapellaAdapter/src/ViewModels/Dialogs/DstToHubMappingConfigurationDialogViewModel.java:193-227 | with the specification lookup as written: never returns exactly where that lookup hangs, throws exactly where it throws; a row maps the element and has status new exactly when it creates its Hub thing; where the corrected lookup would reuse the package's specification, the row creates a new one; otherwise the row the corrected member gives |
| DstToHubDialog.GetMappedElementRow | DEHCapellaAdapter/src/ViewModels/Dialogs/DstToHubMappingConfigurationDialogViewModel.java:193-227 | with the corrected lookup: only components and requirements get a row; the row maps the element, has status new exactly when it creates its Hub thing, and a component gets none exactly when a row already maps it |
| DstToHubDialog.PreMapElementAsWritten | DEHCapellaAdapter/src/ViewModels/Dialogs/DstToHubMappingConfigurationDialogViewModel.java:176-181 | with the lookup as written: hangs or throws exactly where the lookup does; otherwise at most one row is added, behind the rows present, for a component exactly when no row maps it yet, and the result is the corrected one unless the corrected lookup reuses the package's specification |
| DstToHubDialog.PreMapElement | DEHCapellaAdapter/src/ViewModels/Dialogs/DstToHubMappingConfigurationDialogViewModel.java:176-181 | with the corrected lookup: at most one row is added, behind the rows present, and for a component exactly when no row maps it yet |
| DstToHubDialog.PreMapAsWritten | DEHCapellaAdapter/src/ViewModels/Dialogs/DstToHubMappingConfigurationDialogViewModel.java:167-185 | does not return exactly when the walk reaches a requirement whose lookup as written hangs or, reading the rows given, throws; otherwise the rows present stay in front, at most one pre-mapped row is added per element found, no component gets a second row, and the result is the corrected one when no element reached is one whose package's specification the corrected lookup reuses |
| DstToHubDialog.PreMap | DEHCapellaAdapter/src/ViewModels/Dialogs/DstToHubMappingConfigurationDialogViewModel.java:167-185 | with the corrected lookup: the rows present stay in front, at most one row is added per element found inside the selection's packages, every added row is pre-mapped, and no component gets a second row |
| HubToDstDialog.ArchitectureOf | DEHCapellaAdapter/src/ViewModels/Dialogs/HubToDstMappingConfigurationDialogViewModel.java:176-184 | the value passed to the row is the element's architecture when it has one and null otherwise |
| HubToDstDialog.UpdateMappedElements | DEHCapellaAdapter/src/ViewModels/Dialogs/HubToDstMappingConfigurationDialogViewModel.java:147-169 | nothing changes with no selection or when the selected row already targets an element with that id; otherwise a component or requirement becomes the target, an element definition row takes the element's architecture when it has one, and nothing else changes |
| HubToDstDialog.TryGetComponent | DEHCapellaAdapter/src/ViewModels/Dialogs/HubToDstMappingConfigurationDialogViewModel.java:294-314 | nothing happens when a row maps the element definition to a component of that class; otherwise the same-named component of that class is cloned, or else a new one with the element definition's name is created and flagged for creation |
| HubToDstDialog.ArchitectureFor | DEHCapellaAdapter/src/ViewModels/Dialogs/HubToDstMappingConfigurationDialogViewModel.java:249-251 | the target architecture is physical exactly for a physical component and logical otherwise |
| HubToDstDialog.UpdateComponent | DEHCapellaAdapter/src/ViewModels/Dialogs/HubToDstMappingConfigurationDialogViewModel.java:321-336 | the component is looked up again as a physical component for the physical architecture and a logical one otherwise; only the row's target may change, and nothing changes when the row's element definition is already mapped to that class |
| HubToDstDialog.TryGetRequirement | DEHCapellaAdapter/src/ViewModels/Dialogs/HubToDstMappingConfigurationDialogViewModel.java:348-368 | nothing happens when a row maps the Hub requirement; otherwise a same-named Capella requirement is cloned and its architecture reported, or else a new one is created, targeting the system analysis and flagged for creation |
| HubToDstDialog.GetMappedElementRow | DEHCapellaAdapter/src/ViewModels/Dialogs/HubToDstMappingConfigurationDialogViewModel.java:236-281 | only element definitions and requirements get a row; a row's status is new exactly when it creates its target; an element definition row targets the physical architecture exactly for a physical component and gets no row exactly when it is already mapped to a physical component |
| HubToDstDialog.WithCreation | DEHCapellaAdapter/src/ViewModels/Dialogs/HubToDstMappingConfigurationDialogViewModel.java:236-281 | the row records whether it creates its target, with status new exactly then and existing otherwise |
| LegacyDstDialog.SetHubElement | DEHCapellaAdapter/src/ViewModels/Dialogs/DstMappingConfigurationDialogViewModel.java:247-287 | ignored with no selection, an existing mapping selected, or anything but an element definition or requirements specification; otherwise the selected row takes the thing, no longer creates one, the checkbox is disabled and the status is worked out for the thing's class |
| LegacyDstDialog.SetHubElementAgreesExceptRequirements | DEHCapellaAdapter/src/ViewModels/Dialogs/DstMappingConfigurationDialogViewModel.java:247-268 | the older and newer handlers agree on every thing but a Hub requirement, which only the newer one takes |
| Enumerations.RequirementTypeOfClass | DEHCapellaAdapter/src/Utils/Stereotypes/RequirementType.java:110-117 | the value whose class is exactly the one given, or Undefined when no value has it |
| Enumerations.FromClass | DEHCapellaAdapter/src/Utils/Stereotypes/CapellaTypeEnumerationUtility.java:57-79 | a value is found exactly when a component type or requirement type has that class, component types taking precedence, and it has that class |
| Enumerations.ComponentTypeFrom | DEHCapellaAdapter/src/Utils/Stereotypes/CapellaTypeEnumerationUtility.java:88-106 | the first component type in declaration order whose label or class simple name matches ignoring case; none exactly when nothing matches, whatever the constant name |
| Enumerations.ComponentTypeFromOrValueOf | DEHCapellaAdapter/src/Utils/Stereotypes/CapellaTypeEnumerationUtility.java:98-105 | agrees with the lookup as written when that finds a value, and otherwise finds the constant of exactly that name |
| Enumerations.RequirementTypeFrom | DEHCapellaAdapter/src/Utils/Stereotypes/CapellaTypeEnumerationUtility.java:115-133 | the first requirement type in declaration order whose label or class simple name matches ignoring case, none exactly when nothing matches |
| Enumerations.RequirementTypeOfString | DEHCapellaAdapter/src/Utils/Stereotypes/RequirementType.java:126-146 | a constant name finds its constant; otherwise the first value whose label matches ignoring case, else Undefined, so the result is never null |
| Enumerations.ValueOf | DEHCapellaAdapter/src/Utils/Stereotypes/RequirementType.java:126-146 | a value is found exactly for one of the six constant names, and it has that name |
| Enumerations.ComponentTypeRoundTrips | DEHCapellaAdapter/src/Utils/Stereotypes/ComponentType.java:43-48 | each component type is found again from its label, from its class's simple name and from its class |
| Enumerations.ComponentTypeFromIgnoresConstantName | DEHCapellaAdapter/src/Utils/Stereotypes/CapellaTypeEnumerationUtility.java:98-105 | as written no component type is found from its own constant name; the corrected lookup finds each |
| Enumerations.RequirementTypeClassRoundTrip | DEHCapellaAdapter/src/Utils/Stereotypes/RequirementType.java:110-117 | each requirement type is found again from its class, by both class lookups |
| Enumerations.RequirementTypeStringRoundTrip | DEHCapellaAdapter/src/Utils/Stereotypes/RequirementType.java:98-146 | each requirement type is found again from its label, which is what it prints as, and from its constant name |
| Enumerations.RequirementTypeFromRoundTrip | DEHCapellaAdapter/src/Utils/Stereotypes/CapellaTypeEnumerationUtility.java:115-133 | each requirement type is found again from its label, and each but Undefined from its class's simple name |
| Enumerations.LabelsAndNamesDiffer | DEHCapellaAdapter/src/Utils/Stereotypes/RequirementType.java:39-64 | no two requirement types share a label or class simple name, even ignoring case |
| Enumerations.VerifyEnumerationValueIgnoresCase | DEHCapellaAdapter/src/Utils/Stereotypes/CapellaTypeEnumerationUtility.java:142-146 | `VerifyEnumerationValue` ignores case: two strings equal but for case match the same label and class name |
| Rows.NewRow | DEHCapellaAdapter/src/ViewModels/Rows/MappedElementDefinitionRowViewModel.java:45 | a new row is unselected, has no status, creates nothing and targets the physical architecture |
| Rows.SetTargetArchitecture | DEHCapellaAdapter/src/ViewModels/Rows/MappedElementDefinitionRowViewModel.java:64-70 | an architecture value is taken; anything else leaves the row as it was; nothing but the target architecture changes |
| Rows.DoesRepresentAnElementDefinitionComponentMapping | DEHCapellaAdapter/src/ViewModels/Rows/MappedElementDefinitionRowViewModel.java:145-149 | true exactly for a Hub-to-Capella row holding an element definition or a Capella-to-Hub row holding a component |
| Rows.DstElementText | DEHCapellaAdapter/src/ViewModels/Rows/MappedElementDefinitionRowViewModel.java:123-127 | a row without a Capella element shows "-", otherwise the element's name |
| Rows.SwitchIsSelectedValue | DEHCapellaAdapter/src/ViewModels/CapellaObjectBrowser/Rows/ElementRowViewModel.java:58-61 | the flag is negated, the new value is returned, and nothing else changes |
| Rows.SwitchIsSelectedTwice | DEHCapellaAdapter/src/ViewModels/CapellaObjectBrowser/Rows/ElementRowViewModel.java:58-61 | switching twice gives the row back |
| Rows.DisplayName | DEHCapellaAdapter/src/ViewModels/CapellaObjectBrowser/Rows/ElementRowViewModel.java:222-240 | a requirement with a non-blank requirement id is shown as the id, " - " and the name; other named elements by their name |
| Rows.UpdateProperties | DEHCapellaAdapter/src/ViewModels/CapellaObjectBrowser/Rows/ElementRowViewModel.java:222-240 | a row with an element is renamed after it, a row without one is left alone |
| Rows.UpdateElement | DEHCapellaAdapter/src/ViewModels/CapellaObjectBrowser/Rows/ElementRowViewModel.java:260-277 | the row takes the element and its display name, is highlighted when asked and otherwise keeps its highlight, and rows that have contained rows get them recomputed from the new element |
| Rows.UpdateElementIdempotent | DEHCapellaAdapter/src/ViewModels/CapellaObjectBrowser/Rows/ElementRowViewModel.java:260-277 | updating twice with the same element gives what updating once gives |
| Traces.Put | DEHCapellaAdapter/src/MappingRules/BinaryRelationshipToCapellaTraces.java:196-206 | the map afterwards sends the relationship to the new pair of rows, a later put for the same relationship replacing the earlier one |
| Traces.OtherEnd | DEHCapellaAdapter/src/MappingRules/BinaryRelationshipToCapellaTraces.java:196-200 | the row found is the first whose Hub element is the relationship's other end, and none is found exactly when no row holds it |
| Traces.VisitRelationships | DEHCapellaAdapter/src/MappingRules/BinaryRelationshipToCapellaTraces.java:194-208 | every entry added pairs a binary relationship with its target's row and its source's row, and every mappable relationship of the row's thing from this one on is in the map |
| Traces.VisitRows | DEHCapellaAdapter/src/MappingRules/BinaryRelationshipToCapellaTraces.java:191-210 | every mappable relationship of the things of the rows from this one on is in the map, and every entry is well formed |
| Traces.GetMappableBinaryRelationships | DEHCapellaAdapter/src/MappingRules/BinaryRelationshipToCapellaTraces.java:186-213 | every binary relationship of an input row's thing whose other end is an input row is in the map, paired with its source row and its target row |
| Traces.MappableIffBothEndsInInput | DEHCapellaAdapter/src/MappingRules/BinaryRelationshipToCapellaTraces.java:188-209 | a relationship listed at an input row's thing is mappable exactly when it is binary and both its ends are input rows, and its pair is then (source row, target row) whichever end listed it |
| Traces.CreateTrace | DEHCapellaAdapter/src/MappingRules/BinaryRelationshipToCapellaTraces.java:133-152 | the new trace is registered as new, is summarised by the relationship's name in lower case, and joins the originals of the two elements when they are clones |
| Traces.Candidates | DEHCapellaAdapter/src/MappingRules/BinaryRelationshipToCapellaTraces.java:116 | every mappable relationship exactly once, in the map's iteration order, which may be any listing of its keys, each with the Capella elements of its source and target rows |
| Traces.Needed | DEHCapellaAdapter/src/MappingRules/BinaryRelationshipToCapellaTraces.java:118-121 | exactly the candidates with Capella elements at both rows that are not joined by an outgoing trace or by a trace mapped earlier |
| Traces.AlreadyExistsOnceMapped | DEHCapellaAdapter/src/MappingRules/BinaryRelationshipToCapellaTraces.java:160-171 | `AlreadyExists`, the check whether a trace joins two elements, stays true as traces are mapped, becomes true once a trace between their ids is mapped, and without an outgoing trace holds only through a mapped one |
| Traces.FirstBroken | DEHCapellaAdapter/src/MappingRules/BinaryRelationshipToCapellaTraces.java:114-125 | the first candidate with a row lacking a Capella element, none exactly when every candidate has both |
| Traces.CreateTraces | DEHCapellaAdapter/src/MappingRules/BinaryRelationshipToCapellaTraces.java:114-125 | one trace per needed candidate, in order, each as the trace creation makes it |
| Traces.MapCandidates | DEHCapellaAdapter/src/MappingRules/BinaryRelationshipToCapellaTraces.java:86-125 | a candidate lacking a Capella element makes the result empty; otherwise the buffer is followed by one trace per needed candidate; the buffer is emptied either way |
| Traces.RelationshipsToTraces | DEHCapellaAdapter/src/MappingRules/BinaryRelationshipToCapellaTraces.java:86-107 | a row without a Hub element gives an empty result and changes nothing; otherwise the result is the candidates' mapping; the buffer is always emptied |
| Traces.NoTraceOutlivesItsTransform | DEHCapellaAdapter/src/MappingRules/BinaryRelationshipToCapellaTraces.java:103-106 | a transform that follows another returns only the traces it makes itself |
| Traces.Complete | DEHCapellaAdapter/src/MappingRules/CapellaTracesToBinaryRelationship.java:110-133 | the rows are taken as linked pairs exactly when every row has both a Capella and a Hub element |
| Traces.ElementName | DEHCapellaAdapter/src/MappingRules/CapellaTracesToBinaryRelationship.java:159-165 | a named element's name, and otherwise its identifier |
| Traces.RelationshipName | DEHCapellaAdapter/src/MappingRules/CapellaTracesToBinaryRelationship.java:148 | the name starts with the source's name and ends with the target's, with the three-character arrow between them |
| Traces.TargetRowFrom | DEHCapellaAdapter/src/MappingRules/CapellaTracesToBinaryRelationship.java:116-123 | the first row from this one on whose Capella element has the identifier, none exactly when no such row follows |
| Traces.Reach | DEHCapellaAdapter/src/MappingRules/CapellaTracesToBinaryRelationship.java:116-123 | the row a trace leads to holds the trace's target |
| Traces.RowPositions | DEHCapellaAdapter/src/MappingRules/CapellaTracesToBinaryRelationship.java:114-130 | exactly the traces of the row's element that lead to an input row, with that row |
| Traces.AllPositions | DEHCapellaAdapter/src/MappingRules/CapellaTracesToBinaryRelationship.java:112-131 | exactly the traces of all rows' elements that lead to an input row |
| Traces.Unrelateds | DEHCapellaAdapter/src/MappingRules/CapellaTracesToBinaryRelationship.java:125-128 | exactly the positions whose two rows' Hub elements no binary relationship of the iteration or mapped earlier joins yet |
| Traces.CreateRelationships | DEHCapellaAdapter/src/MappingRules/CapellaTracesToBinaryRelationship.java:142-152 | one binary relationship per position, from the source row's Hub element to the target row's, named after the two Capella elements |
| Traces.TracesToRelationships | DEHCapellaAdapter/src/MappingRules/CapellaTracesToBinaryRelationship.java:82-103 | a row lacking either element gives an empty result; otherwise the buffer followed by one relationship per trace to an input row whose Hub elements are not yet related; the buffer is always emptied |
| Traces.ReachIsFirstHolder | DEHCapellaAdapter/src/MappingRules/CapellaTracesToBinaryRelationship.java:116-123 | a trace leads to a row exactly when that row is the first input row holding the trace's target |
| Traces.NeededIffReachesUnrelated | DEHCapellaAdapter/src/MappingRules/CapellaTracesToBinaryRelationship.java:112-131 | a position gets a relationship exactly when it names a trace, the first row holding its target, and two Hub elements not yet related |
| Traces.RelationshipIffUnrelatedTrace | DEHCapellaAdapter/src/MappingRules/CapellaTracesToBinaryRelationship.java:116-128 | a trace of a row's element gets a relationship to a row exactly when that row first holds its target and the two Hub elements are not yet related |
| Traces.RelationshipExistsOnceMapped | DEHCapellaAdapter/src/MappingRules/CapellaTracesToBinaryRelationship.java:174-184 | `RelationshipExists`, the check whether two Hub things are related, stays true as relationships are mapped and becomes true once one between their iids is mapped, binary or not; relationships of the iteration count only when binary |
| Categories.FindByShortName | DEHCapellaAdapter/src/MappingRules/DstToHubBaseMappingRule.java:81-85 | the first category with that short name, none exactly when no category has it |
| Categories.NewCategory | DEHCapellaAdapter/src/MappingRules/DstToHubBaseMappingRule.java:118-122 | the new category carries the given name, short name and permissible classes |
| Categories.TryCreateCategory | DEHCapellaAdapter/src/MappingRules/DstToHubBaseMappingRule.java:116-128 | a category is made exactly when the Hub write succeeds, with the given name, short name and permissible classes |
| Categories.CategoryFor | DEHCapellaAdapter/src/MappingRules/DstToHubBaseMappingRule.java:74-88 | the category has the short name of the given name; it is the library's when one there has that short name, and otherwise the one created, if any |
| Categories.MapCategory | DEHCapellaAdapter/src/MappingRules/DstToHubBaseMappingRule.java:74-105 | the categories are unchanged when the category can be neither found nor created or one with its short name is already there; otherwise it is appended |
| Categories.MapCategoryIdempotent | DEHCapellaAdapter/src/MappingRules/DstToHubBaseMappingRule.java:89-94 | once a category was found or created, mapping the same name again changes nothing, whatever the libraries then hold |
| Categories.MapCategoryKeepsCategories | DEHCapellaAdapter/src/MappingRules/DstToHubBaseMappingRule.java:74-105 | the categories held before stay in front, and one with the name's short name is present exactly when it was already, is in the libraries, or could be created |
| Categories.MapCategoryNames | DEHCapellaAdapter/src/MappingRules/ComponentToElementMappingRule.java:290-323 | mapping several category names in turn keeps the thing's categories in front, adds only categories of those names, and every name found in the libraries or created ends up among the categories |
| ComponentToElement.GetInterfaceEndForPort | DEHCapellaAdapter/src/MappingRules/ComponentToElementMappingRule.java:521-534 | each port orientation gets its own interface end, unset orientation the undirected one, and a port usage never gets none |
| ComponentToElement.PortCount | DEHCapellaAdapter/src/MappingRules/ComponentToElementMappingRule.java:571 | the number of port usages is at most the number of usages, and zero exactly when no usage has an interface end |
| ComponentToElement.FallbackPortName | DEHCapellaAdapter/src/MappingRules/ComponentToElementMappingRule.java:573-578 | a name after the container starts with the container's name and "_port", and carries a number exactly when ports are already there |
| ComponentToElement.GetPortName | DEHCapellaAdapter/src/MappingRules/ComponentToElementMappingRule.java:559-581 | the port's own name unless blank, else its only required interface's name, else a name after the container and its port count |
| ComponentToElement.FallbackPortNamesDistinct | DEHCapellaAdapter/src/MappingRules/ComponentToElementMappingRule.java:573-578 | two names after the same container are equal only for equal port counts |
| ComponentToElement.UsageNamed | DEHCapellaAdapter/src/MappingRules/ComponentToElementMappingRule.java:491-494 | the first usage with the name, none exactly when no usage has it |
| ComponentToElement.NewPortUsage | DEHCapellaAdapter/src/MappingRules/ComponentToElementMappingRule.java:496-506 | the new port usage has the port name and its short name, the port definition and the interface end of the port's orientation |
| ComponentToElement.MapPort | DEHCapellaAdapter/src/MappingRules/ComponentToElementMappingRule.java:489-511 | the definition's usages gain at most a port usage of the port definition, and the usage for the port is among them, named as the port name says |
| ComponentToElement.MapPorts | DEHCapellaAdapter/src/MappingRules/ComponentToElementMappingRule.java:485-513 | the definition keeps its usages and gains only port usages; each port has a usage among them, named like the port when it has a name |
| ComponentToElement.CategoryName | DEHCapellaAdapter/src/MappingRules/ComponentToElementMappingRule.java:293-322 | every component category is mapped by a non-empty name |
| ComponentToElement.Push | DEHCapellaAdapter/src/MappingRules/ComponentToElementMappingRule.java:291-323 | a category is added exactly when its condition holds, after those already chosen |
| ComponentToElement.RegardlessOfKind | DEHCapellaAdapter/src/MappingRules/ComponentToElementMappingRule.java:291-309 | exactly the system, subsystem, actor and human categories whose conditions hold |
| ComponentToElement.CategoriesFor | DEHCapellaAdapter/src/MappingRules/ComponentToElementMappingRule.java:291-323 | a category is chosen exactly when its condition holds |
| ComponentToElement.CategoriesOf | DEHCapellaAdapter/src/MappingRules/ComponentToElementMappingRule.java:296 | the subsystem category is chosen exactly when the name contains "subsystem" in any case, the others by their conditions |
| ComponentToElement.AbstractExcludesComponentKinds | DEHCapellaAdapter/src/MappingRules/ComponentToElementMappingRule.java:311-323 | an abstract component gets the abstract category and neither kind category; otherwise a logical or physical component gets its kind's category |
| ComponentToElement.CategoryNames | DEHCapellaAdapter/src/MappingRules/ComponentToElementMappingRule.java:293-322 | the names of the chosen categories, in order |
| ComponentToElement.MapComponentCategories | DEHCapellaAdapter/src/MappingRules/ComponentToElementMappingRule.java:289-324 | the definition keeps its categories in front and gains every chosen category that the libraries hold or that can be created |
| ComponentToElement.TryGetValueFromPropertyAsWritten | DEHCapellaAdapter/src/MappingRules/ComponentToElementMappingRule.java:730-748 | success is reported exactly when the holder has a value; a default value that is not a literal reports success with the empty string the caller put in the holder |
| ComponentToElement.MissingDefaultReadsAsEmpty | DEHCapellaAdapter/src/MappingRules/ComponentToElementMappingRule.java:677-678 | a property without a default value reads as the empty string |
| ComponentToElement.TryGetValueFromProperty | DEHCapellaAdapter/src/MappingRules/ComponentToElementMappingRule.java:730-748 | a value only from a literal: the numeric or string literal's value, or "true" or "false" for a boolean literal |
| ComponentToElement.ValueReadingsDisagreeOnlyOffLiterals | DEHCapellaAdapter/src/MappingRules/ComponentToElementMappingRule.java:730-748 | the as-written and the intended reading agree exactly on literal default values |
| ComponentToElement.WithoutIidContents | DEHCapellaAdapter/src/MappingRules/ComponentToElementMappingRule.java:377 | removing an iid keeps exactly the usages with another iid |
| ComponentToElement.WithoutIid | DEHCapellaAdapter/src/MappingRules/ComponentToElementMappingRule.java:377 | removing the usages with an iid never leaves more usages than there were |
| ComponentToElement.WithoutAbsentIid | DEHCapellaAdapter/src/MappingRules/ComponentToElementMappingRule.java:377 | removing an iid no usage has changes nothing |
| ComponentToElement.ReplaceUsage | DEHCapellaAdapter/src/MappingRules/ComponentToElementMappingRule.java:377-378 | the usage ends the list, and the usages before it are exactly the old ones with another iid |
| ComponentToElement.ReplaceUsageIdempotent | DEHCapellaAdapter/src/MappingRules/ComponentToElementMappingRule.java:377-378 | replacing the same usage twice is replacing it once |
| ComponentToElement.TaggedUsage | DEHCapellaAdapter/src/MappingRules/ComponentToElementMappingRule.java:392-398 | the first usage recording the component's identifier under the language code CIID, none exactly when no usage does |
| ComponentToElement.GetOrCreateElementUsage | DEHCapellaAdapter/src/MappingRules/ComponentToElementMappingRule.java:389-418 | the usage records the component's identifier; it is an existing usage when one does, and otherwise a new usage of the component's definition, named after it |
| ComponentToElement.MapContainedUsage | DEHCapellaAdapter/src/MappingRules/ComponentToElementMappingRule.java:373-378 | the container's last usage stands for the component and no usage before it shares its iid |
| ComponentToElement.ContainedUsageMappedOnce | DEHCapellaAdapter/src/MappingRules/ComponentToElementMappingRule.java:349-379 | after mapping a contained component exactly one usage stands for it, and mapping it again changes nothing |
| ComponentToElement.FirstMatching | DEHCapellaAdapter/src/MappingRules/ComponentToElementMappingRule.java:441-453 | the first definition whose short name matches ignoring case or whose name is equal, none exactly when no definition matches |
| ComponentToElement.GetOrCreateElementDefinition | DEHCapellaAdapter/src/MappingRules/ComponentToElementMappingRule.java:437-467 | the result matches the name; it is a mapped definition when one matches, else an iteration definition when one matches, else a new definition with the name and its short name |
| ComponentToElement.DefinitionFoundAgain | DEHCapellaAdapter/src/MappingRules/ComponentToElementMappingRule.java:437-467 | once the definition a name resolves to is mapped, the name resolves to it again |
| ComponentToElement.GetPortElementDefinition | DEHCapellaAdapter/src/MappingRules/ComponentToElementMappingRule.java:541-550 | the cached port definition when there is one, else the definition the name "Port" resolves to, which is then cached |
| ComponentToElement.PortDefinitionCreatedOnce | DEHCapellaAdapter/src/MappingRules/ComponentToElementMappingRule.java:541-550 | asking for the port definition a second time gives the same definition and cache |
| ElementToComponent.GetDataValueType | DEHCapellaAdapter/src/MappingRules/ElementToComponentMappingRule.java:394-410 | a quantity kind gets a numeric literal, a boolean type a boolean literal, a text type a string literal, and any other type no class |
| ElementToComponent.CreateDataValue | DEHCapellaAdapter/src/MappingRules/ElementToComponentMappingRule.java:417-434 | a literal of the class the parameter type gets, with no value yet, none when there is no class; a numeric literal takes the unit of a physical-quantity data type and no other |
| ElementToComponent.SetValue | DEHCapellaAdapter/src/MappingRules/ElementToComponentMappingRule.java:370-386 | a literal takes the parameter's value, a boolean one true exactly for "true" in any case; any other data value is left as it is |
| ElementToComponent.UpdateValue | DEHCapellaAdapter/src/MappingRules/ElementToComponentMappingRule.java:346-361 | the property's default value, created for the parameter when missing, takes the parameter's value; name, type and cardinalities do not change |
| ElementToComponent.ValueRoundTrip | DEHCapellaAdapter/src/MappingRules/ElementToComponentMappingRule.java:370-434 | a value written into a new property is read back unchanged for quantities and texts, and for booleans exactly when it is "true" or "false"; other types carry no value |
| ElementToComponent.TryGetExistingProperty | DEHCapellaAdapter/src/MappingRules/ElementToComponentMappingRule.java:472-484 | the first property named like the parameter type ignoring case, none exactly when no property is |
| ElementToComponent.CreateProperty | DEHCapellaAdapter/src/MappingRules/ElementToComponentMappingRule.java:443-462 | a property named after the parameter type with cardinality "1" to "1" and no default value, typed exactly when the parameter is a quantity and a data type is at hand |
| ElementToComponent.FindDataType | DEHCapellaAdapter/src/MappingRules/ElementToComponentMappingRule.java:300 | the first data type named like the scale's name or short name ignoring case, none when no data type is |
| ElementToComponent.GetOrCreateDataTypeAsWritten | DEHCapellaAdapter/src/MappingRules/ElementToComponentMappingRule.java:298-314 | when no data type is found for the scale a new physical quantity is added to those created but none is handed back; otherwise nothing is added |
| ElementToComponent.GetOrCreateDataType | DEHCapellaAdapter/src/MappingRules/ElementToComponentMappingRule.java:298-314 | a created data type standing for the scale, else the model's, else a new physical quantity named after the scale with its unit, which is added to those created and handed back |
| ElementToComponent.NewScaleLeavesPropertyUntyped | DEHCapellaAdapter/src/MappingRules/ElementToComponentMappingRule.java:274-280 | as written the first quantity parameter with a new scale gets an untyped property while a later one with that scale gets the new data type; as intended the first gets it |
| ElementToComponent.MapParameter | DEHCapellaAdapter/src/MappingRules/ElementToComponentMappingRule.java:267-288 | the parameter ends up with a property named like its type; a property is added, at the end, exactly when none was there, typed by what the data type lookup hands back, as written or as intended, and the data types it created kept; existing properties keep names and cardinalities |
| ElementToComponent.MapProperties | DEHCapellaAdapter/src/MappingRules/ElementToComponentMappingRule.java:265-289 | every parameter ends up with a property named like its type; existing properties keep names and cardinalities and new ones have cardinality "1" to "1", as written or as intended |
| ElementToComponent.NewScaleLeavesMappedPropertyUntyped | DEHCapellaAdapter/src/MappingRules/ElementToComponentMappingRule.java:271-280 | a quantity parameter whose scale no data type stands for yet gets an untyped new property as written, and one typed by the new physical quantity as intended |
| ElementToComponent.NoPropertyAddedWhenPresent | DEHCapellaAdapter/src/MappingRules/ElementToComponentMappingRule.java:272-285 | parameters that all have a property already add none |
| ElementToComponent.MappingPropertiesTwiceCreatesNone | DEHCapellaAdapter/src/MappingRules/ElementToComponentMappingRule.java:265-289 | mapping the same parameters a second time adds no property |
| ElementToComponent.NotOverridden | DEHCapellaAdapter/src/MappingRules/ElementToComponentMappingRule.java:251-254 | exactly the definition's parameters whose type no override of the usage has, in order |
| ElementToComponent.UsageParametersAsWritten | DEHCapellaAdapter/src/MappingRules/ElementToComponentMappingRule.java:249-257 | the parameters mapped for a usage are only definition parameters that are not overridden |
| ElementToComponent.OverrideValueDropped | DEHCapellaAdapter/src/MappingRules/ElementToComponentMappingRule.java:251-256 | as written no parameter of an overridden type is mapped for a usage, so the override's value never reaches the component |
| ElementToComponent.UsageParameters | DEHCapellaAdapter/src/MappingRules/ElementToComponentMappingRule.java:249-257 | every override is mapped, and every definition parameter that is not overridden; nothing else is |
| ElementToComponent.TryGetComponentClass | DEHCapellaAdapter/src/MappingRules/ElementToComponentMappingRule.java:541-555 | a class exactly when some category names a component type, and then the class of the first such category |
| ElementToComponent.GetComponentClass | DEHCapellaAdapter/src/MappingRules/ElementToComponentMappingRule.java:521-532 | a component class: the one the categories name, a physical component when none does |
| ElementToComponent.KindOf | DEHCapellaAdapter/src/MappingRules/ElementToComponentMappingRule.java:543-552 | only the logical and physical component categories stand for a component type |
| ElementToComponent.CategoryNamesNameTheirKind | DEHCapellaAdapter/src/MappingRules/ElementToComponentMappingRule.java:545 | a category's name names exactly the component type the category stands for |
| ElementToComponent.ClassFromCategories | DEHCapellaAdapter/src/MappingRules/ElementToComponentMappingRule.java:541-555 | categories naming at most one component type give that type's class, or a physical component when they name none |
| ElementToComponent.ComponentClassRoundTrip | DEHCapellaAdapter/src/MappingRules/ElementToComponentMappingRule.java:521-555 | a component mapped to the Hub and back keeps its class unless it is abstract, in which case it comes back as a physical component |
| RequirementToSpecification.KindCategoryName | DEHCapellaAdapter/src/MappingRules/RequirementToRequirementsSpecificationMappingRule.java:274-293 | a system requirement gets the simple name of its class, the name the requirement type enumeration knows it by; any other requirement gets no kind category |
| RequirementToSpecification.RequirementCategoryNames | DEHCapellaAdapter/src/MappingRules/RequirementToRequirementsSpecificationMappingRule.java:272-299 | at most two names, "Obsolete" among them exactly for an obsolete requirement |
| RequirementToSpecification.CategoryNamesOfKinds | DEHCapellaAdapter/src/MappingRules/RequirementToRequirementsSpecificationMappingRule.java:272-299 | of the five system requirement kind names, exactly the requirement's own is among its category names |
| RequirementToSpecification.MapCategories | DEHCapellaAdapter/src/MappingRules/RequirementToRequirementsSpecificationMappingRule.java:272-299 | the requirement keeps its categories in front, gains the category of each of its names that can be found or created, and gains no other |
| RequirementToSpecification.IsEnglishIgnoresCase | DEHCapellaAdapter/src/MappingRules/RequirementToRequirementsSpecificationMappingRule.java:313 | a definition is English exactly when its language code is "en" ignoring case |
| RequirementToSpecification.FirstEnglish | DEHCapellaAdapter/src/MappingRules/RequirementToRequirementsSpecificationMappingRule.java:311-314 | the first English definition, none exactly when there is none |
| RequirementToSpecification.NewDefinition | DEHCapellaAdapter/src/MappingRules/RequirementToRequirementsSpecificationMappingRule.java:330-336 | a new definition has the fresh iid and the language code "en" |
| RequirementToSpecification.UpdateOrCreateDefinition | DEHCapellaAdapter/src/MappingRules/RequirementToRequirementsSpecificationMappingRule.java:307-323 | the first English definition, or a new one when there is none, takes the description and ends the list; no definition before it shares its iid, and every definition with another iid is kept |
| RequirementToSpecification.DefinitionUpdateIdempotent | DEHCapellaAdapter/src/MappingRules/RequirementToRequirementsSpecificationMappingRule.java:307-323 | when the English definitions share one iid the update leaves a single English definition, and updating again with the same description changes nothing |
| RequirementToSpecification.FindRequirement | DEHCapellaAdapter/src/MappingRules/RequirementToRequirementsSpecificationMappingRule.java:232-236 | a requirement with the short name, none exactly when the specification has none |
| RequirementToSpecification.NewRequirement | DEHCapellaAdapter/src/MappingRules/RequirementToRequirementsSpecificationMappingRule.java:244-250 | a new requirement has the fresh iid, the name and its short name, the current group when there is one, and no definitions or categories |
| RequirementToSpecification.RequirementBase | DEHCapellaAdapter/src/MappingRules/RequirementToRequirementsSpecificationMappingRule.java:232-253 | the requirement mapping starts from has the Capella requirement's short name |
| RequirementToSpecification.Describe | DEHCapellaAdapter/src/MappingRules/RequirementToRequirementsSpecificationMappingRule.java:255-260 | the requirement keeps its thing and group, its last definition carries the description, and its categories are mapped |
| RequirementToSpecification.PlaceRequirement | DEHCapellaAdapter/src/MappingRules/RequirementToRequirementsSpecificationMappingRule.java:257-258 | the requirement ends the specification's list, is the only one with its iid, and every requirement with another iid is kept |
| RequirementToSpecification.PlaceOverLast | DEHCapellaAdapter/src/MappingRules/RequirementToRequirementsSpecificationMappingRule.java:257-258 | placing a requirement with the iid of the last one, which no other requirement shares, replaces the last one in place |
| RequirementToSpecification.TryGetOrCreateRequirement | DEHCapellaAdapter/src/MappingRules/RequirementToRequirementsSpecificationMappingRule.java:229-263 | the mapped requirement ends the specification's requirements, no other shares its iid, and only requirements already there precede it; the specification's own thing and groups stay |
| RequirementToSpecification.FoundAfterMapping | DEHCapellaAdapter/src/MappingRules/RequirementToRequirementsSpecificationMappingRule.java:232-253 | a requirement new to the specification is found by its short name once mapped |
| RequirementToSpecification.RequirementMappedOnce | DEHCapellaAdapter/src/MappingRules/RequirementToRequirementsSpecificationMappingRule.java:229-263 | mapping a new requirement a second time finds it again: same Hub requirement, group and definitions, and the specification does not grow |
| RequirementToSpecification.FindSpecification | DEHCapellaAdapter/src/MappingRules/RequirementToRequirementsSpecificationMappingRule.java:412-427 | the first specification with the short name, none exactly when no specification has it |
| RequirementToSpecification.NewSpecification | DEHCapellaAdapter/src/MappingRules/RequirementToRequirementsSpecificationMappingRule.java:435-440 | a new specification has the fresh iid, the package's name and short name, and nothing in it |
| RequirementToSpecification.TryGetOrCreateRequirementSpecification | DEHCapellaAdapter/src/MappingRules/RequirementToRequirementsSpecificationMappingRule.java:410-447 | the specification has the package's short name; it comes from the cache when there, else from the iteration, else is new, and whatever does not come from the cache is added to it |
| RequirementToSpecification.Remember | DEHCapellaAdapter/src/MappingRules/RequirementToRequirementsSpecificationMappingRule.java:443 | the cache keeps its length, holds the specification where its iid was, and is unchanged elsewhere |
| RequirementToSpecification.SpecificationReused | DEHCapellaAdapter/src/MappingRules/RequirementToRequirementsSpecificationMappingRule.java:412-420 | once looked up, a package's specification is returned again from the cache with what was added to it, and the cache does not change |
| RequirementToSpecification.FindGroup | DEHCapellaAdapter/src/MappingRules/RequirementToRequirementsSpecificationMappingRule.java:388-391 | the first group with the short name, none exactly when no group has it |
| RequirementToSpecification.NewGroup | DEHCapellaAdapter/src/MappingRules/RequirementToRequirementsSpecificationMappingRule.java:356-369 | a new group has the fresh iid, the package's name and short name, and sits in the current group or, when there is none, in the specification |
| RequirementToSpecification.TryGetOrCreateRequirementGroup | DEHCapellaAdapter/src/MappingRules/RequirementToRequirementsSpecificationMappingRule.java:346-401 | the group has the package's short name; a group found among those created in this transform or the specification's changes nothing, otherwise a new group is added to both; the specification's requirements never change |
| RequirementToSpecification.GroupReused | DEHCapellaAdapter/src/MappingRules/RequirementToRequirementsSpecificationMappingRule.java:346-401 | once found or created, a package's group is found again and nothing changes |
| RequirementToSpecification.SiblingsShareGroup | DEHCapellaAdapter/tests/MappingRules/RequirementToRequirementsSpecificationMappingRuleTestFixture.java:97-100 | two new requirements of the same package are placed in the same group, the one created for the first |
| RequirementToSpecification.GroupsAlong | DEHCapellaAdapter/src/MappingRules/RequirementToRequirementsSpecificationMappingRule.java:185-200 | each package on the path gets its group, the last one named after the innermost package, and the specification's requirements do not change |
| RequirementToSpecification.MapRequirementAlong | DEHCapellaAdapter/src/MappingRules/RequirementToRequirementsSpecificationMappingRule.java:185-218 | the requirement ends the specification's list with the Capella requirement's short name; one already there keeps its group, a new one is placed in the innermost package's group, or directly in the specification when the path is empty |
| SpecificationToRequirement.Description | DEHCapellaAdapter/src/MappingRules/RequirementsSpecificationToRequirementMappingRule.java:208-224 | the content of the first definition in English ignoring case, else of the first definition, and the empty text when there is none |
| SpecificationToRequirement.UpdateProperties | DEHCapellaAdapter/src/MappingRules/RequirementsSpecificationToRequirementMappingRule.java:149-154 | the Capella requirement takes the Hub requirement's short name as identifier, its name and its description, and nothing else about it changes |
| SpecificationToRequirement.DescriptionRoundTrip | DEHCapellaAdapter/src/MappingRules/RequirementsSpecificationToRequirementMappingRule.java:208-224 | a description written into the English definition by the opposite rule reads back unchanged |
| SpecificationToRequirement.RequirementRoundTrip | DEHCapellaAdapter/src/MappingRules/RequirementsSpecificationToRequirementMappingRule.java:149-154 | a Capella requirement new to its specification, carried to the Hub and back, keeps its name and description, and its identifier becomes its name's short name |
| SpecificationToRequirement.CategoryNames | DEHCapellaAdapter/src/MappingRules/RequirementsSpecificationToRequirementMappingRule.java:235 | the names of the requirement's categories, in order |
| SpecificationToRequirement.FirstTypedName | DEHCapellaAdapter/src/MappingRules/RequirementsSpecificationToRequirementMappingRule.java:235-244 | the first category name a requirement type recognises, none exactly when none does |
| SpecificationToRequirement.TryGetRequirementClass | DEHCapellaAdapter/src/MappingRules/RequirementsSpecificationToRequirementMappingRule.java:233-247 | a type exactly when some category name is recognised, and then the type a category name gives |
| SpecificationToRequirement.ClassToCreate | DEHCapellaAdapter/src/MappingRules/RequirementsSpecificationToRequirementMappingRule.java:162-172 | the class of the type found, the user requirement's when none was found; only the undefined type has no class |
| SpecificationToRequirement.ObsoleteNamesNoType | DEHCapellaAdapter/src/MappingRules/RequirementsSpecificationToRequirementMappingRule.java:237 | the name "Obsolete" is no requirement type's label or class name |
| SpecificationToRequirement.RequirementClassRoundTrip | DEHCapellaAdapter/tests/MappingRules/RequirementsSpecificationToRequirementMappingRuleTestFixture.java:122-127 | the categories the opposite rule gives a requirement read back as its own system requirement class, and as the user requirement for any other requirement class |
| SpecificationToRequirement.FirstIn | DEHCapellaAdapter/src/MappingRules/RequirementsSpecificationToRequirementMappingRule.java:187-188 | the first element of the class named like the Hub requirement ignoring case in the target architecture, none exactly when no element is |
| SpecificationToRequirement.LookUp | DEHCapellaAdapter/src/MappingRules/RequirementsSpecificationToRequirementMappingRule.java:187-188 | the first matching element of the first open session holding one, none exactly when no session does |
| SpecificationToRequirement.GetOrCreateRequirement | DEHCapellaAdapter/src/MappingRules/RequirementsSpecificationToRequirementMappingRule.java:183-199 | a requirement found in the sessions is cloned; otherwise one of the class with the Hub name is created for the target architecture when the class can be built |
| SpecificationToRequirement.ExistingRequirementClonedOnce | DEHCapellaAdapter/src/MappingRules/RequirementsSpecificationToRequirementMappingRule.java:183-199 | asking again for a requirement that was found returns the same clone and changes nothing |
| SpecificationToRequirement.FirstNamed | DEHCapellaAdapter/src/MappingRules/RequirementsSpecificationToRequirementMappingRule.java:310-312 | the first temporary package named like the thing ignoring case, none exactly when there is none |
| SpecificationToRequirement.FirstNamedIgnoresCase | DEHCapellaAdapter/src/MappingRules/RequirementsSpecificationToRequirementMappingRule.java:311 | names equal ignoring case find the same temporary package |
| SpecificationToRequirement.GetOrCreateRequirementContainer | DEHCapellaAdapter/src/MappingRules/RequirementsSpecificationToRequirementMappingRule.java:306-334 | a temporary package named like the thing, else a requirement package so named in the target architecture, cloned, else a new one, which is added to the temporaries |
| SpecificationToRequirement.ContainerReusedIgnoringCase | DEHCapellaAdapter/src/MappingRules/RequirementsSpecificationToRequirementMappingRule.java:310-326 | once a package was created for a name, asking for a name equal to it ignoring case returns that package and changes nothing |
| SpecificationToRequirement.Place | DEHCapellaAdapter/src/MappingRules/RequirementsSpecificationToRequirementMappingRule.java:295-296 | the child ends the list, and the elements before it are exactly the old ones with another identifier |
| SpecificationToRequirement.AddOrUpdateContainement | DEHCapellaAdapter/src/MappingRules/RequirementsSpecificationToRequirementMappingRule.java:286-297 | a requirement goes into the package's requirements and anything else into its packages, replacing elements with its identifier; the other list is untouched |
| SpecificationToRequirement.ContainedOnce | DEHCapellaAdapter/src/MappingRules/RequirementsSpecificationToRequirementMappingRule.java:295-296 | afterwards the child is the only element with its identifier in its list |
| SpecificationToRequirement.AddOrUpdateContainementIdempotent | DEHCapellaAdapter/src/MappingRules/RequirementsSpecificationToRequirementMappingRule.java:286-297 | containing the same element twice is containing it once |
| SpecificationToRequirement.Detach | DEHCapellaAdapter/src/MappingRules/RequirementsSpecificationToRequirementMappingRule.java:296 | taking an element out of every package ends exactly the containments of that object and keeps the rest |
| SpecificationToRequirement.GroupIndex | DEHCapellaAdapter/src/MappingRules/RequirementsSpecificationToRequirementMappingRule.java:271-272 | the first group with the identifier, none exactly when no group has it |
| SpecificationToRequirement.GroupChain | DEHCapellaAdapter/src/MappingRules/RequirementsSpecificationToRequirementMappingRule.java:262-274 | the groups from the requirement's own up to the specification, each the parent of the one before, none when the requirement sits directly in the specification |
| SpecificationToRequirement.ResolveContainers | DEHCapellaAdapter/src/MappingRules/RequirementsSpecificationToRequirementMappingRule.java:265-274 | one package per group of the chain, the temporaries kept in front |
| SpecificationToRequirement.ContainmentEdges | DEHCapellaAdapter/src/MappingRules/RequirementsSpecificationToRequirementMappingRule.java:263-276 | the requirement goes into the first package, each package into the next, and the last into the specification's package |
| SpecificationToRequirement.Walk | DEHCapellaAdapter/src/MappingRules/RequirementsSpecificationToRequirementMappingRule.java:262-276 | one containment per group and one more; the first contains the requirement, each container is contained by the next, the last container is the specification's package |
| SpecificationToRequirement.UpdateOrCreateRequirementPackages | DEHCapellaAdapter/src/MappingRules/RequirementsSpecificationToRequirementMappingRule.java:256-277 | the containments link the requirement through one package per group of its chain to the package standing for its specification |
| SpecificationToRequirement.ContainOne | DEHCapellaAdapter/src/MappingRules/RequirementsSpecificationToRequirementMappingRule.java:286-297 | after one containment the package holds the child, and a containment that held before still holds exactly unless it held the same object (which leaves its old package) or an element of the same kind with the child's identifier in that package; an element sits in one package at most if it did before |
| SpecificationToRequirement.PlacingAgainMoves | DEHCapellaAdapter/src/MappingRules/RequirementsSpecificationToRequirementMappingRule.java:286-297 | placing an element in one package and then in another leaves it in the second and no longer in the first, as adding to an owning list moves the element |
| SpecificationToRequirement.Contain | DEHCapellaAdapter/src/MappingRules/RequirementsSpecificationToRequirementMappingRule.java:263-276 | after the containments are applied in order each one holds unless a later one moves its child or replaces it in its package; every containment that held before and that none of them disturbs still holds; nothing else holds; an element sits in one package at most if it did before |
| SpecificationToRequirement.RowRequirement | DEHCapellaAdapter/src/MappingRules/RequirementsSpecificationToRequirementMappingRule.java:125-134 | a chosen Capella requirement has its target architecture registered; otherwise the requirement is got or created with the class the categories name, and nothing when that class has no Capella class |
| SpecificationToRequirement.MapRow | DEHCapellaAdapter/src/MappingRules/RequirementsSpecificationToRequirementMappingRule.java:125-139 | a row fails exactly when it gets no Capella requirement; otherwise its requirement carries the Hub name, short name and description, and the containments link it upwards through one package per group of its chain and one more |
| SpecificationToRequirement.MapRows | DEHCapellaAdapter/src/MappingRules/RequirementsSpecificationToRequirementMappingRule.java:123-140 | the package contents are updated by each row's containments in turn, keeping every element in one package at most; when no row fails there is one mapping per row whose requirement carries the row's Hub requirement and is linked upwards through one package per group of its chain, each of those containments holding at the end unless a later row's containment moves or replaces it, and every containment that held before and no row disturbs still holds |
| SpecificationToRequirement.Transform | DEHCapellaAdapter/src/MappingRules/RequirementsSpecificationToRequirementMappingRule.java:91-116 | either the result is empty or every row is mapped: its requirement is held by the first of a line of packages, one per group of its chain and one more, each held by the next, up to the containments a later row moves or replaces; the output requirement is the object the row mapped and carries the Hub requirement of the last row that mapped that object; every element ends in one package at most |
| ImpactPanel.Sort | DEHCapellaAdapter/src/ViewModels/CapellaImpactViewPanelViewModel.java:224 | the same names, in Java's natural order on strings |
| ImpactPanel.GetSavedMappingConfigurationCollection | DEHCapellaAdapter/src/ViewModels/CapellaImpactViewPanelViewModel.java:214-229 | nothing without an open Hub session; otherwise the empty name first, then exactly the names of the adapter's maps, in natural order |
| ImpactPanel.SavedConfigurationsOfOneMap | tests/ViewModels/CapellaImpactViewPanelViewModelTestFixture.java:86-89 | with one map the list is empty while the session is closed and holds the empty name and the map's name while it is open |
| ImpactPanel.FindMap | DEHCapellaAdapter/src/ViewModels/CapellaImpactViewPanelViewModel.java:259-261 | the first map with the name, none exactly when no map has it |
| ImpactPanel.OnSaveLoadMappingConfigurationAsWritten | DEHCapellaAdapter/src/ViewModels/CapellaImpactViewPanelViewModel.java:250-269 | an empty name changes nothing and answers false; otherwise the map with the name, or a new one, becomes current and the mapping is reloaded, and the user is asked about the temporary mapping even when a map with the name exists |
| ImpactPanel.OnSaveLoadMappingConfiguration | DEHCapellaAdapter/src/ViewModels/CapellaImpactViewPanelViewModel.java:250-295 | the user is asked about the temporary mapping exactly when a new map is made while the temporary map holds correspondences; the rest is as written |
| ImpactPanel.LoadingExistingStillAsks | DEHCapellaAdapter/src/ViewModels/CapellaImpactViewPanelViewModel.java:259-262 | loading an existing configuration while the temporary map has correspondences asks the question as written, and not as intended |
| ImpactPanel.SaveLoadAnswer | DEHCapellaAdapter/src/ViewModels/CapellaImpactViewPanelViewModel.java:252-268 | the answer is true exactly for a non-empty name other than the current map's whose first map, if any, was never written to the Hub |
| ShortNames.KeepsShortNameChars | DEHCapellaAdapter/src/Utils/Stereotypes/StereotypeUtils.java:66-69 | a name made only of lower-case letters, digits and '-' is its own short name |
| Stereotypes.OwnedImpliesPath | DEHCapellaAdapter/src/Utils/Stereotypes/StereotypeUtils.java:162-186 | when the ownership test holds, some non-empty path of contents leads from the parent to an element with the element's id |
| Stereotypes.PathImpliesOwned | DEHCapellaAdapter/src/Utils/Stereotypes/StereotypeUtils.java:162-186 | any non-empty path of contents from the parent to an element with the element's id makes the ownership test hold |
| Controller.KeepsSelectedElements | DEHCapellaAdapter/src/DstController/DstController.java:436-446 | dropping the selected traces before re-adding them keeps exactly the selected elements, so trace ends are judged against the same selection |
| Controller.SelectingTwoThingsTwiceAsWritten | DEHCapellaAdapter/src/DstController/DstController.java:451-462 | with two selected things joined by one mapped relationship, two refreshes as written leave that relationship selected twice |
| Controller.SelectingTwoThingsOnce | DEHCapellaAdapter/src/DstController/DstController.java:451-462 | in the same situation the corrected refresh, applied twice, selects the relationship exactly once |
| LegacyController.SelectingDefinitionsOfTest | tests/DstController/DstControllerTestFixture.java:129-131 | selecting all element definitions from an empty selection selects just the one element definition |
| LegacyController.SelectingSpecificationsOfTest | tests/DstController/DstControllerTestFixture.java:132-133 | selecting all requirements specifications then adds just the specification behind it |
| LegacyController.DeselectingStepsOfTest | tests/DstController/DstControllerTestFixture.java:134-139 | deselecting specifications leaves the definition, deselecting definitions leaves nothing, and selecting usages with none mapped leaves nothing |
| Enumerations.FoundOnlyByItself | DEHCapellaAdapter/src/Utils/Stereotypes/CapellaTypeEnumerationUtility.java:115-133 | a requirement type's label, or its class's simple name, finds that type and no other |

## Left out

- User interface, reactive subscriptions, logging, background tasks and Hub sessions are not modelled. A result is returned instead of being published to an observable.
- Hub writes, refreshes, the mapping engine, Capella session lookups and clock-free id generation are parameters. Their effects outside the values returned are not modelled.
- Transform descent: the Capella-to-Hub dialog's walk over a selection's packages is abstracted as the list of elements found inside those packages. `IsParentOf` is not modelled.
- Rule caches: every transform starts from empty temporary collections, standing for the caches each rule clears at its start. A clone is the same value with a fresh `ref`.
- Utils.Ref and Utils.Operators are not part of this model (see the assumptions above).
- The Hub-to-Capella dialog's `PreMap` loop (HubToDstMappingConfigurationDialogViewModel.java:203-227) is not modelled, because it only feeds subscriptions. The per-element decision it calls is modelled as `HubToDstDialog.GetMappedElementRow`.
- ComponentToElementMappingRule: not modelled here:
  - `MapInterfaces` (196-282);
  - the parameter, parameter type, scale, unit and value-set handling of `MapProperties` (589-978), except reading a property's default value;
  - clearing of `portsToConnect`.
- ElementToComponentMappingRule: not modelled here:
  - `GetOrCreateUnit` (322-337), which is Capella unit creation;
  - `UpdateContainement`, which is Capella containment bookkeeping;
  - the session lookup inside `GetOrCreateComponent` (566-596), which is a parameter;
  - `MapContainedElement` (491-513).
- The older controller's `UpdateParameterValueSets` throwing inside `TransferToHub` is not distinguished from a failed write.
- `RequirementType.toString` is modelled only through its label.
- The external identifier map that `SaveMappingConfiguration` fills is not modelled.
- Dialogs.UpdateRowStatus: a map-result row without a Hub element would make the source throw while checking the status; the model treats it as not matching that row.
- Traces.MapCandidates: every candidate whose row lacks a Capella element is taken to make the transform throw. The source throws at once for a missing source element but, for a missing target element, only once it dereferences it.
- Traces.TracesToRelationships: a row without a Hub element is taken to make the transform throw before any relationship is made.
- SpecificationToRequirement.GroupChain: the walk up the Hub groups also stops at a group not among the specification's groups or already visited. The source's loop would not stop on a cyclic group structure, which a Hub containment tree cannot have.
- SpecificationToRequirement.RowRequirement: a requirement type without a class (Undefined) or a class Capella cannot build is modelled as the row failing, where the source fails with an exception.
- SpecificationToRequirement.Contain: package contents are recorded by package object, from nothing at the start of a transform. What a package already owned in Capella, and the package an element sat in before the transform, are not modelled, so an element the transform moves out of a package it was not placed in stays recorded nowhere but in its new package.
- SpecificationToRequirement.MapRows: elements are value snapshots related by their object reference; a row's containments are promised only where no later row's containment moves the same object or replaces an element of the same identifier in that package, since adding to an owning list moves the element.
- SpecificationToRequirement.Transform: the output requirement of a row is the last row's snapshot of the same object, which agrees with the program in the fields the rule writes; fields other rules write to that object are not modelled.
- SpecificationToRequirement.RequirementRoundTrip: the round trip is stated only for a requirement new to its specification. An existing Hub requirement keeps its own short name.
- ElementToComponent.TryGetComponentClass: it uses the corrected `Enumerations.ComponentTypeFromOrValueOf` (Finding 6), not the lookup as written.
- ImpactPanel.OnSaveLoadMappingConfiguration: a newly created identifier map is taken to have revision 0, as the Hub gives to a thing not yet written.

## Findings

| source | as written | input that shows it | evidently intended | confidence | as-written member | corrected member |
|---|---|---|---|---|---|---|
| DEHCapellaAdapter/src/ViewModels/Dialogs/DstToHubMappingConfigurationDialogViewModel.java:332-349 | the Hub element is cleared only when the box is ticked and the row does not create a new target, a condition evaluated after the base handler has already set "create new" to the box's value, so it never fires; the Hub-to-Capella dialog (376-393) has the same code | ticking "map to new" on a component row mapped to an existing element definition keeps the element definition | the older handler's order: test before setting, so ticking drops the existing Hub element | not executed; high | Dialogs.CheckBoxChangedAsWritten (lemma Dialogs.TickingNewKeepsHubElement) | Dialogs.CheckBoxChangedClearingHub |
| DEHCapellaAdapter/src/DstController/DstController.java:619-621 | earlier Capella-to-Hub rows are matched only against the new rows whose Hub element is null, and that null Hub element is then dereferenced | remapping a component already mapped to an element definition keeps the old row beside the new one; a new row without a Hub element makes the call throw when earlier rows exist | keep rows whose Hub element is not null, so the old row for the same element is replaced | not executed; high | Controller.MapAsWritten (lemma Controller.MapKeepsStaleRow) | Controller.Map |
| DEHCapellaAdapter/src/MappingRules/ComponentToElementMappingRule.java:730-748 | the value holder passed in already holds "" (607, 677), so "has a value" is true even when the default value is not a literal or is missing | a property without a default value reads as the value "" | report no value for a property without a literal default | not executed; low (depends on `Ref.HasValue`) | ComponentToElement.TryGetValueFromPropertyAsWritten (lemma ComponentToElement.MissingDefaultReadsAsEmpty) | ComponentToElement.TryGetValueFromProperty |
| DEHCapellaAdapter/src/ViewModels/Dialogs/DstToHubMappingConfigurationDialogViewModel.java:305 | the holder of the parent package, not its name, is compared with each specification's name, which never matches | a requirement in a package named like an existing Hub specification gets a second, new specification | compare the parent package's name | not executed; medium | DstToHubDialog.TryGetRequirementSpecificationAsWritten (lemma DstToHubDialog.ParentSpecificationIgnored) | DstToHubDialog.TryGetRequirementSpecification |
| DEHCapellaAdapter/src/Utils/Stereotypes/StereotypeUtils.java:197-217 | when the requirement's direct container is not a requirement package, the loop resets the current element to that container each pass and never ends | a requirement contained directly in a non-package element | stop and report no parent package | not executed; high | Stereotypes.SearchDivergesAtStart | Stereotypes.SearchGuardedTerminates |
| DEHCapellaAdapter/src/Utils/Stereotypes/CapellaTypeEnumerationUtility.java:98-105 | the `finally` block returns null and discards the constant found by `valueOf` | looking up the component type named "Logical" by its constant name gives null | return the constant found by name when no label or class name matches | not executed; high | Enumerations.ComponentTypeFrom (lemma Enumerations.ComponentTypeFromIgnoresConstantName) | Enumerations.ComponentTypeFromOrValueOf |
| DEHCapellaAdapter/src/DstController/DstController.java:451-462 | the relationships are removed from the Hub-to-Capella selection but appended to the Capella-to-Hub selection, so those selected before are never removed | two selected things joined by one mapped relationship, refreshed twice, select the relationship twice | remove them from the list they are appended to, as the trace refresh (436-446) does | not executed; high | Controller.AddOrRemoveBinaryRelationshipForTransferAsWritten (lemma Controller.RelationshipSelectedTwice) | Controller.AddOrRemoveBinaryRelationshipForTransfer |
| DEHCapellaAdapter/src/DstController/DstController.java:575 | a stray `;` ends the `if` on the mapping attempt, so the block after it runs even when the attempt failed and then dereferences the missing output | an engine answer that is not a list makes the call throw | skip the block when the attempt fails, leaving the state alone and returning the flag | not executed; high | Controller.MapTracesAsWritten (lemma Controller.MapTracesWithoutList) | Controller.MapTraces |
| DEHCapellaAdapter/src/MappingRules/ElementToComponentMappingRule.java:298-314 | a newly created data type is stored among the temporary data types but never put into the holder | the first parameter whose scale has no Capella data type yet gets a property without a type | also set the new data type into the holder | not executed; high | ElementToComponent.GetOrCreateDataTypeAsWritten (lemma ElementToComponent.NewScaleLeavesPropertyUntyped) | ElementToComponent.GetOrCreateDataType |
| DEHCapellaAdapter/src/MappingRules/ElementToComponentMappingRule.java:249-257 | the list named "all parameters and overrides" holds only the parameters that are not overridden; the overrides are never added | an element usage overriding a parameter of its definition maps to a component with no property for that parameter | add the usage's parameter overrides to the list | not executed; medium | ElementToComponent.UsageParametersAsWritten (lemma ElementToComponent.OverrideValueDropped) | ElementToComponent.UsageParameters |
| DEHCapellaAdapter/src/ViewModels/CapellaImpactViewPanelViewModel.java:259-262 | `orElse` evaluates the new-configuration argument eagerly, so the "keep existing mapping" question (289-294) is asked even when an existing configuration is loaded | loading an existing configuration while a temporary map with correspondences is current still asks the question | ask only when a new configuration is created (`orElseGet`) | not executed; high | ImpactPanel.OnSaveLoadMappingConfigurationAsWritten (lemma ImpactPanel.LoadingExistingStillAsks) | ImpactPanel.OnSaveLoadMappingConfiguration |
