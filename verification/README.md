# Riggers phonebook: roster membership model

The riggers phonebook keeps three lists:

- the **personnel** roster (riggers, scaffolders and other workers, each with a helmet colour and at most one team);
- the **teams** (crews with a name, tasks, an assignee, a date, a status and an optional work-order link);
- the **work orders** (four-digit numbers with an owner and a location).

The app shell derives the views from these lists:

- each team with its members;
- the unassigned personnel;
- the searched and filtered roster;
- the date-filtered team list.

Personnel move between teams by drag and drop, from the team dialogs, and through the cascade that runs when a team is deleted. An old schema kept a work-order number on each team. A one-shot migration turns those numbers into work-order records and links the teams back to them.

This Dafny project models that core. It covers:

- the three record kinds and their storage APIs;
- the three list stores, as classes whose methods replace their list field;
- the drag state;
- the shell's projections and cross-store handlers;
- the migration, over a storage object;
- the cards and forms, whose handlers return the callback they would invoke (`TeamCard.Call`, `WorkOrderHooks.WorkOrderEdit`, a request record);
- the older single-file revision of the shell (`App.tsx`), including its throwing search.

Module map:

| file | module | source |
|---|---|---|
| records.dfy | Records | src/features/*/types, types.ts |
| text.dfy, seqs.dfy | Text, Seqs | the string and array primitives the code calls |
| personnel_api.dfy, teams_api.dfy, work_orders_api.dfy | PersonnelApi, TeamsApi, WorkOrdersApi | src/features/*/api |
| personnel_store.dfy, team_store.dfy, work_order_store.dfy | PersonnelHooks, TeamHooks, WorkOrderHooks | src/features/*/hooks |
| drag_drop.dfy | TeamDragDrop | src/features/teams/hooks/useTeamDragDrop.ts |
| projection.dfy, app_shell.dfy | Projection, AppShell | src/App.tsx |
| personnel_helpers.dfy, personnel_filters.dfy | PersonnelHelpers, PersonnelFilters | src/features/personnel/helpers, hooks |
| migration.dfy | Migration | src/utils/migrateToWorkOrders.ts |
| team_card.dfy, team_members_modal.dfy | TeamCard, TeamMembersModal | src/features/teams/components |
| work_order_card.dfy, create_work_order_modal.dfy | WorkOrderCard, CreateWorkOrderModal | src/features/workOrders/components |
| create_team_modal.dfy, add_personnel_modal.dfy, edit_personnel_modal.dfy | CreateTeamModal, AddPersonnelModal, EditPersonnelModal | the form components of both revisions |
| legacy_app.dfy | LegacyApp | App.tsx |

Modelling conventions:

- `Date.now()` and today's ISO date are parameters (`now`, `today`).
- Local storage is an input value: `StoredTeams`, `StoredOrders`, or the `Migration.Storage` object.
- `localeCompare` and the default `sort()` are code-unit lexicographic order (`Text.LexLe`).
- `toLowerCase` folds ASCII letters.
- `trim` strips ASCII white space, NBSP and the byte-order mark.
- A JavaScript `Set` is a duplicate-free sequence kept in insertion order.
- `Array.prototype.sort` is stable. Each sort is modelled by `Seqs.SortBy`, an insertion sort, and the in-place member sorts run `Seqs.InsertionSort` on an array.

## Model

| member | source | states |
|---|---|---|
| Records.OrElse | src/features/teams/components/TeamCard.tsx:41-42 | `field \|\| fallback`: a present non-empty string is kept; an absent or empty one gives the fallback |
| Records.NullIfEmpty | src/features/teams/components/TeamCard.tsx:73 | `value \|\| null` is null exactly for the empty string, and otherwise the string itself |
| Records.NullIfEmptyRoundTrip | src/features/teams/components/TeamCard.tsx:78 | reading back with `\|\| ''` what was stored with `\|\| null` gives the text; the converse holds for every stored value except `""` |
| Records.HelmetNameInjective | src/features/personnel/types/index.ts:7 | distinct helmet colours have distinct stored tags, so the helmet filter's string test picks out one colour |
| Text.LexTotal | src/features/personnel/hooks/usePersonnel.ts:14 | the name order used by every sort compares any two strings |
| Text.LexTransitive | src/features/personnel/hooks/usePersonnel.ts:14 | the name order is transitive |
| Text.LexAntisymmetric | src/features/personnel/hooks/usePersonnel.ts:14 | two names each ordered before the other are equal |
| Text.Trim | src/features/teams/components/TeamCard.tsx:51 | `trim()` is empty exactly when the text is all white space |
| Text.TrimShape | src/features/teams/components/TeamCard.tsx:51-52 | the trimmed text is an infix of the input that neither starts nor ends with white space |
| Text.TrimIdempotent | src/features/teams/components/TeamCard.tsx:52 | trimming a trimmed name changes nothing |
| Text.KeepDigits | src/features/workOrders/components/WorkOrderCard.tsx:122 | `replace(/\D/g, '')` leaves only digits, keeps every digit of the input as often as it occurs and drops every other character, and leaves all-digit text unchanged |
| Text.KeepDigitsConcat | src/features/workOrders/components/WorkOrderCard.tsx:122 | the digits are kept in the order typed: the digits of `a + b` are those of `a` followed by those of `b` |
| Text.SplitThree | src/features/workOrders/components/WorkOrderCard.tsx:103 | `split('-')` of `y-m-d` gives back the three dash-free pieces |
| Seqs.Filter | src/features/personnel/hooks/usePersonnelFilters.ts:17 | `filter` keeps exactly the elements passing the test, each as often as in the input |
| Seqs.FilterConcat | src/features/personnel/api/personnelApi.ts:28 | filtering distributes over concatenation, so survivors keep their order |
| Seqs.SortBy | src/features/personnel/hooks/usePersonnel.ts:14 | the sort is a permutation of its input, ordered under any total comparator |
| Seqs.InsertionSort | src/features/teams/components/TeamCard.tsx:189-195 | the in-place sort leaves the array equal to `SortBy` of its old contents |
| Seqs.StableSortIsGroupFirst | src/features/teams/components/TeamCard.tsx:189-195 | a stable sort under a "flagged first" comparator gives the flagged elements, then the rest, each group in list order |
| Seqs.GroupFirstOrder | src/features/teams/components/TeamCard.tsx:192-193 | after grouping, every flagged element precedes every unflagged one |
| Seqs.GroupFirstStable | src/features/teams/components/TeamCard.tsx:194 | grouping keeps the relative order inside each group |
| PersonnelApi.Add | src/features/personnel/api/personnelApi.ts:14-21 | the new person has the caller's fields, the clock reading as id, and no team |
| PersonnelApi.Update | src/features/personnel/api/personnelApi.ts:23-25 | `update` returns its argument unchanged |
| PersonnelApi.Delete | src/features/personnel/api/personnelApi.ts:27-29 | exactly the records with the id are removed; the others remain with their multiplicity, and an absent id changes nothing |
| PersonnelApi.DeleteKeepsOrder | src/features/personnel/api/personnelApi.ts:27-29 | deleting from a concatenation deletes from each part, so order is kept |
| TeamsApi.Create | src/features/teams/api/teamsApi.ts:14-27 | a new team has the clock id, the name, today's date, empty tasks and notes, status `open`, and no leader, location or work order |
| TeamsApi.Update | src/features/teams/api/teamsApi.ts:29-31 | `update` returns its argument unchanged |
| TeamsApi.Delete | src/features/teams/api/teamsApi.ts:33-35 | exactly the teams with the id are removed; an absent id changes nothing |
| TeamsApi.DeleteKeepsOrder | src/features/teams/api/teamsApi.ts:33-35 | deletion keeps the other teams in order |
| WorkOrdersApi.MaxId | src/features/workOrders/api/workOrdersApi.ts:13 | `Math.max(...ids, 0)`: non-negative, at least every id, and 0 or one of the ids |
| WorkOrdersApi.NewWorkOrder | src/features/workOrders/api/workOrdersApi.ts:30-39 | a created order carries the given fields, status `Not started` and no notes |
| WorkOrdersApi.Delete | src/features/workOrders/api/workOrdersApi.ts:42-44 | exactly the orders with the id are removed |
| WorkOrdersApi.DeleteKeepsOrder | src/features/workOrders/api/workOrdersApi.ts:42-44 | deletion keeps the other orders in order |
| WorkOrdersApi.WorkOrderCounter.constructor | src/features/workOrders/api/workOrdersApi.ts:5 | the module counter starts at 1 |
| WorkOrdersApi.WorkOrderCounter.GetAll | src/features/workOrders/api/workOrdersApi.ts:8-20 | stored orders are returned and the counter re-seeded past every stored id; nothing stored gives `[]` and leaves the counter alone |
| WorkOrdersApi.WorkOrderCounter.Create | src/features/workOrders/api/workOrdersApi.ts:30-40 | the record takes the counter value, and the counter grows by one |
| PersonnelHooks.NameOrder | src/features/personnel/hooks/usePersonnel.ts:14 | the by-name comparator is total and transitive |
| PersonnelHooks.SortByName | src/features/personnel/hooks/usePersonnel.ts:14 | the by-name sort is a permutation and sorted by name |
| PersonnelHooks.ReplaceById | src/features/personnel/hooks/usePersonnel.ts:17-21 | each record with the updated id becomes the update; the others are unchanged, in place |
| PersonnelHooks.AssignTeam | src/features/personnel/hooks/usePersonnel.ts:27-29 | each record with the id gets the team; the others are unchanged, in place |
| PersonnelHooks.AssignOnlyTeamId | src/features/personnel/hooks/usePersonnel.ts:27-29 | assignment changes only `teamId`, and only on the matching records |
| PersonnelHooks.AssignKeepsSorted | src/features/personnel/hooks/usePersonnel.ts:27-29 | a name-sorted roster stays sorted after assignment |
| PersonnelHooks.DeleteKeepsSorted | src/features/personnel/hooks/usePersonnel.ts:23-25 | a name-sorted roster stays sorted after deletion |
| PersonnelHooks.UpdateUnknownId | src/features/personnel/hooks/usePersonnel.ts:17-21 | an update whose id matches nobody leaves the same people |
| PersonnelHooks.PersonnelStore.constructor | src/features/personnel/hooks/usePersonnel.ts:6 | the store starts from the loaded list |
| PersonnelHooks.PersonnelStore.AddPersonnel | src/features/personnel/hooks/usePersonnel.ts:12-15 | the roster gains exactly the new unassigned person and is sorted by name |
| PersonnelHooks.PersonnelStore.UpdatePersonnel | src/features/personnel/hooks/usePersonnel.ts:17-21 | the roster is the re-sorted replacement, of the same length |
| PersonnelHooks.PersonnelStore.DeletePersonnel | src/features/personnel/hooks/usePersonnel.ts:23-25 | the roster is `delete` of the old one, and sortedness is kept |
| PersonnelHooks.PersonnelStore.AssignToTeam | src/features/personnel/hooks/usePersonnel.ts:27-29 | the roster is the old one with the team set on the matching records; sortedness is kept |
| TeamHooks.ApplyEdit | src/features/teams/hooks/useTeams.ts:18-64 | the edited field holds the new value; every other field and the id are untouched |
| TeamHooks.ApplyHeldEdit | src/features/teams/hooks/useTeams.ts:18-64 | setting a field to the value it holds changes nothing |
| TeamHooks.UpdateTeams | src/features/teams/hooks/useTeams.ts:18-64 | the teams with the id get the edit; the others are unchanged, in place |
| TeamHooks.UpdateKeepsIds | src/features/teams/hooks/useTeams.ts:18-64 | updates keep every id, and an unknown id changes nothing |
| TeamHooks.TeamStore.constructor | src/features/teams/hooks/useTeams.ts:6 | the store starts from the loaded list |
| TeamHooks.TeamStore.CreateTeam | src/features/teams/hooks/useTeams.ts:12-16 | the created team is appended and its id returned |
| TeamHooks.TeamStore.Update | src/features/teams/hooks/useTeams.ts:18-64 | the list is `UpdateTeams` of the old one |
| TeamHooks.TeamStore.UpdateTeamName | src/features/teams/hooks/useTeams.ts:18-22 | the matching teams get the name |
| TeamHooks.TeamStore.UpdateTeamTasks | src/features/teams/hooks/useTeams.ts:24-28 | the matching teams get the tasks |
| TeamHooks.TeamStore.UpdateTeamAssignment | src/features/teams/hooks/useTeams.ts:30-34 | the matching teams get the assignee |
| TeamHooks.TeamStore.UpdateTeamLeader | src/features/teams/hooks/useTeams.ts:36-40 | the matching teams get the leader |
| TeamHooks.TeamStore.UpdateLocation | src/features/teams/hooks/useTeams.ts:42-46 | the matching teams get the location |
| TeamHooks.TeamStore.UpdateWorkOrder | src/features/teams/hooks/useTeams.ts:48-52 | the matching teams get the work-order number |
| TeamHooks.TeamStore.UpdateStatus | src/features/teams/hooks/useTeams.ts:54-58 | the matching teams get the status |
| TeamHooks.TeamStore.UpdateDate | src/features/teams/hooks/useTeams.ts:60-64 | the matching teams get the date |
| TeamHooks.TeamStore.DeleteTeam | src/features/teams/hooks/useTeams.ts:66-68 | only the team list changes: `delete` of the old one |
| WorkOrderHooks.ApplyEdit | src/features/workOrders/hooks/useWorkOrders.ts:18-46 | the edited field holds the new value; every other field and the id are untouched |
| WorkOrderHooks.UpdateOrders | src/features/workOrders/hooks/useWorkOrders.ts:18-46 | the orders with the id get the edit; the others are unchanged, in place |
| WorkOrderHooks.UpdateKeepsIds | src/features/workOrders/hooks/useWorkOrders.ts:18-46 | updates keep every id, and an unknown id changes nothing |
| WorkOrderHooks.WorkOrderStore.constructor | src/features/workOrders/hooks/useWorkOrders.ts:6 | the list is what `getAll` returns, and every held id is below the counter |
| WorkOrderHooks.WorkOrderStore.CreateWorkOrder | src/features/workOrders/hooks/useWorkOrders.ts:12-16 | the new order is appended with an id above every held id, and that id is returned |
| WorkOrderHooks.WorkOrderStore.Update | src/features/workOrders/hooks/useWorkOrders.ts:18-46 | the list is `UpdateOrders` of the old one; the ids stay below the counter |
| WorkOrderHooks.WorkOrderStore.UpdateWorkOrderNumber | src/features/workOrders/hooks/useWorkOrders.ts:18-22 | the matching orders get the number |
| WorkOrderHooks.WorkOrderStore.UpdateOwner | src/features/workOrders/hooks/useWorkOrders.ts:24-28 | the matching orders get the owner |
| WorkOrderHooks.WorkOrderStore.UpdateWorkOrderLocation | src/features/workOrders/hooks/useWorkOrders.ts:30-34 | the matching orders get the location |
| WorkOrderHooks.WorkOrderStore.UpdateWorkOrderDate | src/features/workOrders/hooks/useWorkOrders.ts:36-40 | the matching orders get the date |
| WorkOrderHooks.WorkOrderStore.UpdateWorkOrderStatus | src/features/workOrders/hooks/useWorkOrders.ts:42-46 | the matching orders get the status |
| WorkOrderHooks.WorkOrderStore.DeleteWorkOrder | src/features/workOrders/hooks/useWorkOrders.ts:48-50 | the list is `delete` of the old one; teams are not touched |
| TeamDragDrop.DragState.constructor | src/features/teams/hooks/useTeamDragDrop.ts:4-5 | nothing is dragged and no zone is hovered |
| TeamDragDrop.DragState.HandleDragStart | src/features/teams/hooks/useTeamDragDrop.ts:7-9 | the person becomes the dragged one; the hovered zone is kept |
| TeamDragDrop.DragState.HandleDragEnter | src/features/teams/hooks/useTeamDragDrop.ts:11-13 | the zone becomes the hovered one; the dragged person is kept |
| TeamDragDrop.DragState.HandleDragLeave | src/features/teams/hooks/useTeamDragDrop.ts:15-17 | no zone is hovered; the dragged person is kept |
| TeamDragDrop.DragState.HandleDragEnd | src/features/teams/hooks/useTeamDragDrop.ts:19-22 | both fields are cleared from any state |
| Projection.DistinctIds | src/App.tsx:133-135 | the `Map` keys: each team id once, and only ids some record carries |
| Projection.DistinctIdsSnoc | src/App.tsx:133-135 | the keys are in first-insertion order: a later record adds its id at the end only when the id is new |
| Projection.LastWithIdIsLast | src/App.tsx:134 | a later `set` with the same key wins: the record kept carries the id and no later record does |
| Projection.Grouped | src/App.tsx:132-140 | one entry per key, carrying exactly the personnel whose truthy team id is that key |
| Projection.TeamNameOrder | src/App.tsx:141 | the by-name team comparator is total and transitive |
| Projection.Teams | src/App.tsx:131-142 | `teams` is a permutation of the grouped entries, sorted by name |
| Projection.TeamsMembers | src/App.tsx:131-142 | each listed team is the last record with its id, and its members are exactly those personnel with that team |
| Projection.TeamsIds | src/App.tsx:131-142 | no id is listed twice; an id is listed exactly when some team record carries it |
| Projection.AtMostOneTeam | src/App.tsx:136-139 | a person is listed under at most one team |
| Projection.MemberListed | src/App.tsx:137 | a person whose truthy team id is carried by some record is listed under some team |
| Projection.Unassigned | src/App.tsx:144-146 | the people without a team, each as often as on the roster |
| Projection.DanglingListedNowhere | src/App.tsx:137-145 | a person whose team id no record carries appears neither under a team nor as unassigned |
| Projection.ProjectTeams | src/App.tsx:131-142 | the two `forEach` loops over a `Map` compute `Teams` |
| Projection.TeamNameMap | src/App.tsx:148-152 | the map's keys are the team ids, and each maps to the name on the last record with that id |
| Projection.TeamOrder | src/App.tsx:168-176 | the newest-first, then by-name comparator is total and transitive |
| Projection.FilteredTeams | src/App.tsx:154-177 | exactly the teams the date filter keeps, newest first and then by name |
| Projection.FilterChoices | src/App.tsx:154-167 | `all` keeps every team; an undated team is kept by the today filter and dropped by the older ones |
| Projection.FilteredTeamsOrder | src/App.tsx:168-176 | of two listed teams, the earlier has the later-or-equal date, and equal dates are ordered by name |
| AppShell.MemberIds | src/App.tsx:191-193 | the ids of exactly the people on the team |
| AppShell.IdSet | src/App.tsx:203-205 | an id is in the set exactly when it is listed |
| AppShell.Reassign | src/App.tsx:193-196 | the people whose ids are in the set get the team; the others are unchanged, in place |
| AppShell.ReassignStep | src/App.tsx:203-205 | one more `assignToTeam` to the same team adds that id to the reassigned set |
| AppShell.CascadeClearsTeam | src/App.tsx:190-199 | after the cascade nobody is on the team, its former members are unassigned, and every person whose id is not a member's id is unchanged (the cascade matches by id, as `assignToTeam` does) |
| AppShell.Shell.constructor | src/App.tsx:105-119 | the shell holds the three stores |
| AppShell.Shell.HandleDeleteTeam | src/App.tsx:190-199 | every member of the deleted team is unassigned, and the team is deleted |
| AppShell.Shell.HandleCreateTeam | src/App.tsx:201-206 | the team is created, and exactly the listed ids move to it |
| AppShell.Shell.HandleUnassignedDrop | src/App.tsx:345-352 | a truthy dropped id is unassigned, and the drag ends in every case |
| PersonnelHelpers.RoleName | src/features/personnel/helpers/personnelHelpers.ts:3-8 | a blue helmet is a discipline foreman; bass and riggansvarling are their own labels; others show the discipline |
| PersonnelHelpers.DisciplineColor | src/features/personnel/helpers/personnelHelpers.ts:10-22 | a listed discipline gets its own class; the gray fallback is given exactly to unlisted ones |
| PersonnelHelpers.DisciplineColorTable | src/features/personnel/helpers/personnelHelpers.ts:11-20 | the eight listed disciplines and their classes |
| PersonnelFilters.FirstAppearance | src/features/personnel/hooks/usePersonnelFilters.ts:12 | the `Set` of disciplines: each discipline present, once |
| PersonnelFilters.StringOrder | src/features/personnel/hooks/usePersonnelFilters.ts:13 | the default `sort()` order is total and transitive |
| PersonnelFilters.Disciplines | src/features/personnel/hooks/usePersonnelFilters.ts:11-14 | `'All'` first, then the distinct disciplines, sorted |
| PersonnelFilters.DisciplineList | src/features/personnel/hooks/usePersonnelFilters.ts:11-14 | after `'All'` each discipline present appears exactly once, and nothing else appears |
| PersonnelFilters.FilteredPersonnel | src/features/personnel/hooks/usePersonnelFilters.ts:16-26 | exactly the matching persons, each as often as on the roster, sorted by name |
| PersonnelFilters.FilteredPassesFilters | src/features/personnel/hooks/usePersonnelFilters.ts:23-24 | a listed person is on the roster and passes the discipline and helmet filters |
| PersonnelFilters.EmptySearchKeepsEveryone | src/features/personnel/hooks/usePersonnelFilters.ts:16-26 | an empty search with both filters at `All` lists everyone |
| PersonnelFilters.NoPhoneNoPhoneMatch | src/features/personnel/hooks/usePersonnelFilters.ts:19-22 | a person without a phone is found only by name, discipline or role |
| PersonnelFilters.PhoneSearchIsCaseSensitive | src/features/personnel/hooks/usePersonnelFilters.ts:18-20 | the phone is searched as typed, while the name is searched case-insensitively |
| PersonnelFilters.LowerConcat | src/features/personnel/hooks/usePersonnelFilters.ts:18-22 | case folding distributes over concatenation |
| PersonnelFilters.ForemanSearch | src/features/personnel/hooks/usePersonnelFilters.ts:22 | searching "foreman" in any case finds every blue-helmet person |
| Migration.HasNumberSnoc | src/utils/migrateToWorkOrders.ts:25 | a prefix one team longer carries the numbers of the shorter prefix plus that team's qualifying number |
| Migration.Numbers | src/utils/migrateToWorkOrders.ts:37-54 | the distinct four-character numbers of the qualifying teams, each once |
| Migration.FirstWith | src/utils/migrateToWorkOrders.ts:41-50 | the first qualifying team that carries the number |
| Migration.OrderFor | src/utils/migrateToWorkOrders.ts:42-50 | the created order has an empty owner; its location, date and status come from the team, falling back to `''`, today and `Not started` |
| Migration.WorkOrdersFor | src/utils/migrateToWorkOrders.ts:37-54 | one order per distinct number, with ids 1, 2, … in order of first appearance, built from the first team carrying it |
| Migration.Position | src/utils/migrateToWorkOrders.ts:52 | the index at which the number occurs |
| Migration.NumberIds | src/utils/migrateToWorkOrders.ts:52 | `workOrderMap` maps each qualifying number to its order's id |
| Migration.Relink | src/utils/migrateToWorkOrders.ts:57-65 | teams whose number is in the map get its id; the others are unchanged |
| Migration.Migrate | src/utils/migrateToWorkOrders.ts:14-78 | nothing stored gives two empty lists; a list with no qualifying number gives no orders and the teams unchanged (the writing case is stated by `MigrateFromQualifying`, `MigratedTeams` and `FirstTeamSupplies`) |
| Migration.MigratedTeams | src/utils/migrateToWorkOrders.ts:57-65 | the linked list keeps length and order; a qualifying team gains only a link to the order with its number, and every other team is unchanged |
| Migration.QualifyingSnoc | src/utils/migrateToWorkOrders.ts:25 | filtering one more team adds it exactly when it qualifies |
| Migration.NumbersOfQualifying | src/utils/migrateToWorkOrders.ts:25-37 | the numbers are the same when computed from the qualifying teams alone |
| Migration.FirstOfQualifying | src/utils/migrateToWorkOrders.ts:25-41 | the first team carrying a number is the same among the qualifying teams |
| Migration.FirstTeamSupplies | src/utils/migrateToWorkOrders.ts:41-50 | each created order takes its fields from the first qualifying team with its number |
| Migration.CreatedTeamNotMigrated | src/features/teams/api/teamsApi.ts:14-27 | a team made by `create` carries no work-order number and never qualifies |
| Migration.MigratedIdsSeedCounter | src/utils/migrateToWorkOrders.ts:43 | the largest migrated id is the number of distinct numbers, so loading them re-seeds the counter past them |
| Migration.WorkOrdersStep | src/utils/migrateToWorkOrders.ts:41-52 | one loop step adds an order exactly for a number not seen before |
| Migration.NumbersStep | src/utils/migrateToWorkOrders.ts:41 | one more qualifying team adds its number exactly when it is new |
| Migration.MapStep | src/utils/migrateToWorkOrders.ts:41-53 | the map and counter invariant survives one loop step |
| Migration.BuiltMap | src/utils/migrateToWorkOrders.ts:54 | after the loop the map is `NumberIds` |
| Migration.CreateWorkOrders | src/utils/migrateToWorkOrders.ts:33-54 | the `forEach` loop builds exactly `WorkOrdersFor` and `NumberIds` |
| Migration.NoneQualifying | src/utils/migrateToWorkOrders.ts:27 | there are no qualifying teams exactly when there are no numbers |
| Migration.SameWorkOrders | src/utils/migrateToWorkOrders.ts:25-54 | the qualifying teams alone give the same orders |
| Migration.SameNumberIds | src/utils/migrateToWorkOrders.ts:25-54 | the qualifying teams alone give the same number-to-id map |
| Migration.MigrateFromQualifying | src/utils/migrateToWorkOrders.ts:22-73 | the result is computed from the filtered list and relinks the full list |
| Migration.MigrateTeams | src/utils/migrateToWorkOrders.ts:22-73 | the code as written computes `Migrate` |
| Migration.Storage.constructor | src/utils/migrateToWorkOrders.ts:17 | storage holds the given teams, orders and flag |
| Migration.Storage.MigrateToWorkOrders | src/utils/migrateToWorkOrders.ts:14-78 | returns `Migrate`, writes orders and linked teams only when some team qualifies, and never touches the flag |
| Migration.Storage.CheckAndMigrate | src/utils/migrateToWorkOrders.ts:81-90 | runs exactly when the flag is unset; afterwards the flag is set, and a second call changes nothing |
| TeamCard.SortMembers | src/features/teams/components/TeamCard.tsx:189-195 | the members named as the assignee come first; everyone else follows in list order |
| TeamCard.LeaderCandidates | src/features/teams/components/TeamCard.tsx:146 | exactly the blue and bass helmets are offered, each as often as on the roster |
| TeamCard.DropCalls | src/features/teams/components/TeamCard.tsx:175-182 | a truthy dropped id moves to this team; the drag ends in every case |
| TeamCard.AssignedRoundTrip | src/features/teams/components/TeamCard.tsx:41-73 | the value stored by an assignment reads back as the chosen value |
| TeamCard.CardState.constructor | src/features/teams/components/TeamCard.tsx:38-43 | not editing; tasks and assignee are prefilled with `\|\| ''` |
| TeamCard.CardState.HandleStartEdit | src/features/teams/components/TeamCard.tsx:45-48 | edit mode opens on the team's name |
| TeamCard.CardState.HandleSaveEdit | src/features/teams/components/TeamCard.tsx:50-55 | a non-blank name is reported trimmed and edit mode closes; a blank name reports nothing and stays open |
| TeamCard.CardState.HandleCancelEdit | src/features/teams/components/TeamCard.tsx:57-60 | edit mode closes and the draft is cleared |
| TeamCard.CardState.HandleTasksBlur | src/features/teams/components/TeamCard.tsx:62-64 | the tasks text is reported for this team |
| TeamCard.CardState.HandleAssignedToChange | src/features/teams/components/TeamCard.tsx:66-75 | the custom entry opens the input and reports nothing; any other choice closes it and reports the choice, with the empty one as null |
| TeamCard.CardState.HandleCustomAssignedBlur | src/features/teams/components/TeamCard.tsx:77-80 | the text is reported, with empty as null, and the input closes when empty |
| TeamCard.CardState.HandleCustomAssignedEnter | src/features/teams/components/TeamCard.tsx:158-162 | Enter reports the text, with empty as null, and keeps the input open |
| TeamMembersModal.SortMembers | src/features/teams/components/TeamMembersModal.tsx:106-113 | the members named as the leader come first; everyone else follows in list order |
| TeamMembersModal.RemoveFromTeam | src/features/teams/components/TeamMembersModal.tsx:43-45 | removing asks for a move of that person to no team |
| TeamMembersModal.RemoveUnassigns | src/features/teams/components/TeamMembersModal.tsx:43-45 | carried out, a removal unassigns exactly the persons with that id |
| TeamMembersModal.ModalState.constructor | src/features/teams/components/TeamMembersModal.tsx:37 | tasks are prefilled with `\|\| ''` |
| TeamMembersModal.ModalState.HandleTasksBlur | src/features/teams/components/TeamMembersModal.tsx:39-41 | the tasks text is reported for this team |
| WorkOrderCard.SanitizeNumber | src/features/workOrders/components/WorkOrderCard.tsx:122 | the input keeps the first four digits typed: all digits, a prefix of the typed digits, at most four |
| WorkOrderCard.SanitizeIdempotent | src/features/workOrders/components/WorkOrderCard.tsx:253 | sanitising is idempotent, and a four-digit number passes unchanged |
| WorkOrderCard.FormatIsoDate | src/features/workOrders/components/WorkOrderCard.tsx:102-105 | `formatDate` turns `YYYY-MM-DD` into `DD/MM` |
| WorkOrderCard.StatusLabel | src/features/workOrders/components/WorkOrderCard.tsx:211 | a missing or empty status shows as `Not started`; any other status is shown as stored |
| WorkOrderCard.CountLabel | src/features/workOrders/components/WorkOrderCard.tsx:396 | the singular label is used exactly for one team |
| WorkOrderCard.TrimmedOrNothing | src/features/workOrders/components/WorkOrderCard.tsx:84-89 | the trimmed text is saved unless the text is blank |
| WorkOrderCard.CardState.constructor | src/features/workOrders/components/WorkOrderCard.tsx:55-60 | no editor is open, and the drafts are the order's fields |
| WorkOrderCard.CardState.HandleNumberInput | src/features/workOrders/components/WorkOrderCard.tsx:122 | the draft number is the sanitised text |
| WorkOrderCard.CardState.HandleWOSave | src/features/workOrders/components/WorkOrderCard.tsx:77-82 | the number is committed exactly when it has four characters; the editor closes either way |
| WorkOrderCard.CardState.HandleOwnerSave | src/features/workOrders/components/WorkOrderCard.tsx:84-89 | a non-blank owner is committed trimmed; the editor closes either way |
| WorkOrderCard.CardState.HandleLocationSave | src/features/workOrders/components/WorkOrderCard.tsx:91-96 | a non-blank location is committed trimmed; the editor closes either way |
| WorkOrderCard.CardState.HandleStatusChange | src/features/workOrders/components/WorkOrderCard.tsx:98-100 | the chosen status is committed as is, and the card then shows it |
| CreateWorkOrderModal.SanitizedValidity | src/features/workOrders/components/CreateWorkOrderModal.tsx:58 | sanitised text is a valid number exactly when it is empty or has four digits |
| CreateWorkOrderModal.EnabledMeansFourDigits | src/features/workOrders/components/CreateWorkOrderModal.tsx:136 | the submit button is enabled exactly with a four-digit number and owner and location filled |
| CreateWorkOrderModal.SubmitSkipsNumberRule | src/features/workOrders/components/CreateWorkOrderModal.tsx:23 | the submit handler accepts a two-digit number that the button refuses |
| CreateWorkOrderModal.FormState.constructor | src/features/workOrders/components/CreateWorkOrderModal.tsx:15-19 | the form is empty and dated today |
| CreateWorkOrderModal.FormState.HandleNumberInput | src/features/workOrders/components/CreateWorkOrderModal.tsx:58 | the number field holds the sanitised text |
| CreateWorkOrderModal.FormState.HandleSubmit | src/features/workOrders/components/CreateWorkOrderModal.tsx:21-33 | with number, owner and location filled the request carries the form and the form resets; otherwise nothing changes |
| CreateWorkOrderModal.FormState.HandleClose | src/features/workOrders/components/CreateWorkOrderModal.tsx:35-42 | the form resets to empty, dated today |
| CreateTeamModal.FilterNoDuplicates | src/features/teams/components/CreateTeamModal.tsx:20 | deleting from a duplicate-free selection keeps it duplicate-free |
| CreateTeamModal.Toggle | src/features/teams/components/CreateTeamModal.tsx:17-25 | a selected id is removed and an unselected one added; the selection stays a set |
| CreateTeamModal.ToggleTwice | src/features/teams/components/CreateTeamModal.tsx:17-25 | toggling twice gives back the same ids, and exactly the same list when the id was absent |
| CreateTeamModal.FormState.constructor | src/features/teams/components/CreateTeamModal.tsx:14-15 | no name, nothing selected |
| CreateTeamModal.FormState.HandleSelectPersonnel | src/features/teams/components/CreateTeamModal.tsx:17-25 | the selection is toggled |
| CreateTeamModal.FormState.HandleSubmit | src/features/teams/components/CreateTeamModal.tsx:27-35 | with a name the request carries it and each selected id once, and the form resets; without one nothing changes |
| CreateTeamModal.FormState.HandleClose | src/features/teams/components/CreateTeamModal.tsx:37-41 | the form resets |
| AddPersonnelModal.PredefinedLists | src/features/personnel/components/AddPersonnelModal.tsx:11 | both revisions start on `Rigger`, the older list is a prefix of the newer, and neither lists `Other` |
| AddPersonnelModal.FinalDiscipline | src/features/personnel/components/AddPersonnelModal.tsx:22 | `Other` takes the custom text; any other entry is taken as chosen |
| AddPersonnelModal.FormState.constructor | src/features/personnel/components/AddPersonnelModal.tsx:14-18 | the form starts empty, on the first discipline, with a white helmet |
| AddPersonnelModal.FormState.HandleSubmit | src/features/personnel/components/AddPersonnelModal.tsx:20-27 | with a name and a discipline the person goes out, with an empty phone as null, and the form resets; otherwise nothing changes |
| AddPersonnelModal.FormState.HandleClose | src/features/personnel/components/AddPersonnelModal.tsx:29-36 | the form resets |
| EditPersonnelModal.PrefillDiscipline | components/EditPersonnelModal.tsx:32-39 | a listed discipline selects its entry; any other selects `Other` with the discipline as custom text |
| EditPersonnelModal.PrefillRoundTrip | components/EditPersonnelModal.tsx:32-47 | the prefilled choice gives back the discipline it came from |
| EditPersonnelModal.Submitted | components/EditPersonnelModal.tsx:45-58 | nothing is submitted unless a person is open and name, phone and discipline are filled; otherwise the person with the form's fields |
| EditPersonnelModal.UntouchedSubmitRoundTrip | components/EditPersonnelModal.tsx:27-55 | opening the form on a person and submitting it untouched gives back that very person when name, phone and discipline are filled, and nothing otherwise |
| EditPersonnelModal.FormState.constructor | components/EditPersonnelModal.tsx:20-24 | the form starts empty, on the first discipline, with a white helmet |
| EditPersonnelModal.FormState.Prefill | components/EditPersonnelModal.tsx:27-43 | the person's fields are copied into the form; no person leaves the form as it was |
| EditPersonnelModal.FormState.HandleSubmit | components/EditPersonnelModal.tsx:45-58 | the form hands over `Submitted` and keeps its fields |
| LegacyApp.LegacyRoleName | App.tsx:30-34 | this revision's labels: blue is a discipline foreman, green is `Safety`, others show the discipline |
| LegacyApp.RoleNameRevisions | App.tsx:30-34 | both revisions label white and blue helmets alike and differ on a bass helmet whose discipline is not `Bass` |
| LegacyApp.LegacyMatches | App.tsx:119-127 | the callback throws exactly for a person with no phone whose name does not match; otherwise it agrees with the null-safe test |
| LegacyApp.FilterAsWritten | App.tsx:118-127 | `filter` aborts exactly when some callback throws, and otherwise keeps the matching persons |
| LegacyApp.FilteredPersonnelAsWritten | App.tsx:118-129 | the view is absent exactly when some person throws, and otherwise equals the corrected view |
| LegacyApp.NullPhoneThrows | App.tsx:122 | a one-person roster without a phone, searched for `5`, throws, where the corrected view lists nobody |
| LegacyApp.FilteredPersonnel | App.tsx:118-129 | the corrected view is total: exactly the matching persons, each as often as on the roster, sorted by name |
| LegacyApp.ListedWithoutPhone | App.tsx:121-124 | in the corrected view a person without a phone is listed only when the search finds their name, discipline or role |
| LegacyApp.NewTeamInfo | App.tsx:164 | this revision's new team has only an id and a name |
| LegacyApp.SavedNameIsTrimmed | App.tsx:218-226 | saving renames exactly the edited team, to non-empty text without surrounding white space; with the guard false nothing changes |
| LegacyApp.LegacyShell.constructor | App.tsx:95-111 | starts from the fixture lists with nothing being edited |
| LegacyApp.LegacyShell.Teams | App.tsx:131-146 | `teams` and `unassignedPersonnel` are computed as in the current revision |
| LegacyApp.LegacyShell.HandleAddPersonnel | App.tsx:155-160 | the roster gains exactly the new unassigned person and is sorted by name |
| LegacyApp.LegacyShell.HandleCreateTeam | App.tsx:162-169 | an id-and-name team is appended, and exactly the listed ids move to it |
| LegacyApp.LegacyShell.HandleDragStart | App.tsx:172-176 | the person becomes the dragged one |
| LegacyApp.LegacyShell.HandleDragEnter | App.tsx:182-184 | the zone becomes the hovered one |
| LegacyApp.LegacyShell.HandleDragLeave | App.tsx:186-188 | no zone is hovered |
| LegacyApp.LegacyShell.HandleDragEnd | App.tsx:199-202 | both drag fields are cleared |
| LegacyApp.LegacyShell.HandleDrop | App.tsx:190-197 | a truthy parsed id moves that person, NaN and 0 move nobody, and the drag ends either way |
| LegacyApp.LegacyShell.HandleTeamZoneDrop | App.tsx:277-284 | the dragged person, taken from the drag state, moves when truthy and stops being dragged; the hover marker stays |
| LegacyApp.LegacyShell.HandleNameChange | App.tsx:433 | the edit box's text replaces the name being edited |
| LegacyApp.LegacyShell.HandlePersonMove | App.tsx:204-206 | only the matching person's team changes |
| LegacyApp.LegacyShell.HandleStartEditTeam | App.tsx:213-216 | editing starts on that team and name |
| LegacyApp.LegacyShell.HandleSaveTeamName | App.tsx:218-226 | with a truthy id and a non-blank name the team is renamed and editing ends; otherwise nothing changes |
| LegacyApp.LegacyShell.HandleCancelEditTeam | App.tsx:228-231 | editing ends and the draft is cleared |

## Left out

- Local storage reads and writes, `JSON.parse` and `JSON.stringify` are not modelled. Stored data is an input value, and JSON decoding is abstracted: the decoded list, or text that does not decode (`Migration.BadTeams`, `WorkOrdersApi.Unreadable`). The caught-failure paths of `migrateToWorkOrders` and of the work-order `getAll` are modelled on that input.
- `Date.now()` and `new Date().toISOString()` are parameters. Real clock values, and two creations in the same millisecond, are not modelled.
- `localeCompare` is modelled as code-unit order. Locale collation, Unicode case folding, Unicode white space in `trim`, and UTF-16 surrogates are not modelled.
- React rendering, memoisation, effect timing, batched state updates and the `onClose` callbacks are not modelled. Each handler is one atomic step.
- Presentational components and constants are not part of this model: `PersonnelCard`, `StatusDropdown`, `Fab`, `Modal`, `FilterPill`, `HelmetIndicator` and the colour tables other than `getDisciplineColor`.
- The controlled-input `onChange` setters are left out: each copies the typed text into its field. Only the sanitising number inputs are modelled.
- The open and close toggles are left out: Escape, pencil, the actions menu, expand and the FAB menu.
- The `WorkOrderCard` delete action and the drag handlers of the members dialog are left out. They forward to handlers modelled above.
- WorkOrderCard.FormatDate: has no contract of its own. Its meaning on ISO dates is the `FormatIsoDate` lemma. Other inputs are modelled as written, with `undefined` for a missing piece.
- LegacyApp.SaveTeamName: states only that the length is kept. Its meaning is the `SavedNameIsTrimmed` lemma.
- The older `components/CreateTeamModal.tsx` and `components/AddPersonnelModal.tsx` behave as the current revision's forms and are modelled once. `PredefinedLists` records how their discipline lists differ. The older `App.tsx` `disciplines` memo (lines 113-116) is the same code as `usePersonnelFilters`' and is modelled once, by `PersonnelFilters.Disciplines`.
- PersonnelHelpers.DisciplineColor: looks up only the listed keys. A key such as `constructor`, which a plain JavaScript object inherits, is not modelled.
- PersonnelApi.Update, TeamsApi.Update: the APIs return their argument; writing it to storage is left out with the rest of storage.
- Migration.Storage.MigrateToWorkOrders: a storage exception inside the `try` is not modelled.

## Findings

| source | as written | input that shows it | evidently intended | confidence | as-written member | corrected member |
|---|---|---|---|---|---|---|
| App.tsx:122 | `p.phone.includes(searchTerm)` runs on every person whose name does not match, and a person with a null phone makes it throw | roster `[Personnel(1, "Ann", None, None, "Rigger", White)]`, search `"5"` | a person without a phone is just not matched by phone, and the search lists nobody | not executed | LegacyApp.FilteredPersonnelAsWritten | LegacyApp.FilteredPersonnel |
