# Slot inventories and the escrow trade, in Dafny

This project models the shared inventory store of a family of Discord bots and the two-party escrow trade built on it.

**The slot store.** Every user of a guild owns ten slot rows, and every organisation warehouse owns fifty. A slot is one of:
- empty;
- a stack of one stackable item, holding 1 to `stack_max` units;
- one unit of a unique item (`stack_max = 1`), with its own instance id and optional durability.

The database table is a map from (owner, slot number) to slot (`Slots.Rows`). `ensureSlots` inserts the missing rows (`Slots.Provision`). Plans are computed on a copy of the owner's slots and written back with `Slots.WriteBack`. The fresh-id generator (`crypto.randomUUID`) is a counter, `nextId`, that only grows.

The model covers four source files, each in its own form:

- **`metroinventories/metroinventories.cjs`** (module `MetroInventories`, class `Inventory`):
  - the atomic add: top up partial stacks, then fill empty slots, on a copy, committed only when everything fits;
  - the atomic remove: smallest stacks first;
  - compaction, the slot-to-slot move, and the `use` command;
  - the `inv-add`, `inv-remove` and `inv-clear` handlers.

  The pure plans live in modules `Stacking` and `Removal`.
- **`metrotrade/metrotrades.cjs`** (modules `Capacity`, `MetroTrades`, `TradeHandlers`, and the class `TradeBot.Bot`):
  - the dry-run capacity check `canReceiveAll`;
  - the escrow lock `moveOfferToEscrow`, with its two phases;
  - delivery `deliverEscrowTo` and rollback `rollbackEscrowToOwners`;
  - the bot's own copy of `addItemsAtomic`;
  - the session state machine of the trade-open, offer, ready, confirm and cancel handlers.

  Each step is a function over the tables (`MetroTrades`, `TradeHandlers`). The class `TradeBot.Bot` runs the same steps as loops over its fields, and each of its methods is proved to leave exactly the tables the step function describes.
- **`inventory-core.cjs`** (module `InventoryCore`, class `Core`): the shared library. It has no transactions: its stack loops write every slot as soon as they reach it, working from the slot list read at the start, and throw when units remain. This module also covers the warehouse add and the player-to-warehouse transfer.
- **`municipio/municipiocentrale.cjs`** (module `Municipio`, class `Adapter`):
  - the town-hall bot's adapter onto the same `inventory_slots` table;
  - the administrators' `trade-sim` certificate transfer, which puts the certificate back with the sender when the receiver's add throws.

### Where the code does not do what it appears to promise

- **No all-or-nothing adds and removes in the library or the adapter.** Unlike the trade bot's `addItemsAtomic` (metrotrade/metrotrades.cjs:159), `InventoryCore` and `Municipio` run their stack loops outside any transaction. A throw can follow partial writes, and `InventoryCore.Core.InventoryAddStack` states exactly which rows are left.
- **`moveOfferToEscrow` and `deliverEscrowTo` commit partial work.** Their transactions return `{ok:false}` instead of throwing, so whatever they wrote before failing is committed. Delivery is guarded by the dry-run capacity check `canReceiveAll` (metrotrade/metrotrades.cjs:209-210), and `DeliveryRoom.DeliverFits` shows that a delivery of well-formed escrow rows goes through exactly when the check accepts it, so it never fails part-way. `DeliveryRoom.FinalizeFits` carries this to finalize: the trade completes exactly when each party has room, on the table as it was, for what the other escrowed.
- **Finalize is not atomic.** It runs as two separate delivery transactions. This is the first finding below.
- **Rollbacks that throw.** The rollback's unique branch throws when no slot is free; the code comments that this should not happen (metrotrade/metrotrades.cjs:624). When a rollback throws, the code leaves the flags and the escrow as they were, and the model answers `Unexpected`. This can happen only on the cancel path and after a refused finalize, where other commands may have filled a party's slots since the lock. The rollback of a lock that has just failed always goes through: the one escrow move that succeeded emptied exactly the room its rows need (`DeliveryRoom.LockRestores`), so `trade-ready` never answers `Unexpected` (`TradeHandlers.ReadyLocks`).

## Model

| member | source | states |
|---|---|---|
| Slots.FirstFree | inventory-core.cjs:84 | the index returned is the lowest empty slot; None exactly when no slot is empty |
| Slots.View | metroinventories/metroinventories.cjs:75 | the owner's slots in slot order: entry i is the row of slot i + 1, and there are exactly n of them |
| Slots.Provision | metroinventories/metroinventories.cjs:106-111 | after ensureSlots the owner has all slots 1..n; existing rows are unchanged, and every inserted row is an empty slot of that owner |
| Slots.EnsureRows | metroinventories/metroinventories.cjs:106-111 | the insertion loop over slot numbers 1..n leaves exactly the provisioned table |
| Slots.ProvisionIdempotent | inventory-core.cjs:19-22 | ensureSlots run twice is ensureSlots run once |
| Slots.ProvisionNoop | inventory-core.cjs:19-22 | ensureSlots inserts nothing for an owner who already has all rows |
| Slots.WriteBack | metroinventories/metroinventories.cjs:214-216 | the committed owner's slots become the plan; no other row changes and no row is added |
| Slots.ViewWrite | metroinventories/metroinventories.cjs:80-84 | updating one slot row changes that owner's view at that slot only, and no other owner's view |
| Slots.WriteBackTwice | metroinventories/metroinventories.cjs:214-216 | a second commit for the same owner overrides the first |
| Slots.WriteBackView | metroinventories/metroinventories.cjs:214-216 | committing the owner's own unchanged slots leaves the table as it was |
| Slots.ClearOwner | metroinventories/metroinventories.cjs:90-94 | qClearAll empties every row of the owner, whatever its slot number, and no other row |
| Slots.CountUpdate | metroinventories/metroinventories.cjs:80-84 | overwriting one slot changes an item's total by exactly what that slot held and now holds |
| Slots.CountZero | metroinventories/metroinventories.cjs:238-240 | an item's total is 0 exactly when no slot holds it |
| Slots.ViewValid | metroinventories/metroinventories.cjs:181 | in a valid table an owner's slots agree with the catalogue, and their instance ids are distinct and already issued |
| Slots.ProvisionValid | metroinventories/metroinventories.cjs:106-111 | ensureSlots keeps the table valid |
| Slots.ClearOwnerValid | metroinventories/metroinventories.cjs:431-432 | clearing an owner keeps the table valid |
| Slots.NotElsewhere | metroinventories/metroinventories.cjs:180-181 | an id held by the owner, or not yet issued, is held by no row of any other owner |
| Slots.CommitValid | metroinventories/metroinventories.cjs:214-216 | committing a conforming plan whose unique units are old or freshly issued keeps the table valid, with the new next id |
| Stacking.TopUp | metroinventories/metroinventories.cjs:189-197 | the top-up pass returns a slot list of the same length |
| Stacking.Fill | metroinventories/metroinventories.cjs:199-211 | the fill pass returns a slot list of the same length |
| Stacking.AddStackPlan | metroinventories/metroinventories.cjs:187-213 | the add plan keeps the length of the slot list |
| Stacking.PlanTopUp | metroinventories/metroinventories.cjs:189-197 | the top-up loop over the copy computes exactly the top-up pass |
| Stacking.PlanFill | metroinventories/metroinventories.cjs:198-212 | the fill loop over the copy computes exactly the fill pass |
| Stacking.PlanStackAdd | metroinventories/metroinventories.cjs:187-213 | the two loops together compute exactly the add plan and its remainder |
| Stacking.TopUpShape | metroinventories/metroinventories.cjs:191-195 | top-up changes only partial stacks of the item, raising each to at most stack_max |
| Stacking.TopUpCount | metroinventories/metroinventories.cjs:192-194 | top-up adds exactly the units it no longer has to place, and only of the item |
| Stacking.TopUpLeft | metroinventories/metroinventories.cjs:189-197 | top-up leaves unplaced exactly what exceeds the room in the partial stacks |
| Stacking.TopUpFull | metroinventories/metroinventories.cjs:189-197 | units left after top-up mean every partial stack of the item was raised to stack_max |
| Stacking.TopUpInOrder | metroinventories/metroinventories.cjs:189-191 | top-up works in slot order: once a later stack is raised, every earlier partial stack is full |
| Stacking.TopUpOthers | metroinventories/metroinventories.cjs:191 | top-up changes no empty slot and no other item's stack |
| Stacking.FillShape | metroinventories/metroinventories.cjs:201-207 | fill changes only empty slots, putting at most stack_max units of the item in each |
| Stacking.FillCount | metroinventories/metroinventories.cjs:202-208 | fill adds exactly the units it no longer has to place, and only of the item |
| Stacking.FillLeft | metroinventories/metroinventories.cjs:199-211 | fill leaves unplaced exactly what exceeds stack_max per empty slot |
| Stacking.FillUses | metroinventories/metroinventories.cjs:199-211 | fill succeeds exactly when enough empty slots exist, and then uses the ceiling of remainder / stack_max of them |
| Stacking.FillInOrder | metroinventories/metroinventories.cjs:199-201 | fill uses empty slots lowest first: a used slot below a later used one holds a full stack |
| Stacking.FillOthers | metroinventories/metroinventories.cjs:201-207 | fill creates only stacks of the item, so other items keep their partial-stack room |
| Stacking.NeededFits | metroinventories/metroinventories.cjs:202 | placing rem units stack_max per slot fits in the free slots exactly when rem <= stack_max × free |
| Stacking.AddPlanRoom | metroinventories/metroinventories.cjs:213 | the add fits exactly when qty is at most the partial-stack room plus stack_max per empty slot; otherwise the excess is the remainder |
| Stacking.AddPlanCount | metroinventories/metroinventories.cjs:187-212 | the plan holds qty − remainder more units of the item and the same amount of every other item |
| Stacking.AddPlanShape | metroinventories/metroinventories.cjs:189-212 | the plan changes only partial stacks of the item (to at most stack_max) and empty slots (to a stack of the item of at most stack_max) |
| Stacking.AddPlanTopUpFirst | metroinventories/metroinventories.cjs:198 | empty slots are used only once no partial stack of the item has room left |
| Stacking.AddPlanFillInOrder | metroinventories/metroinventories.cjs:199-201 | empty slots are used lowest first |
| Stacking.AddPlanFree | metroinventories/metroinventories.cjs:198-212 | a successful add uses exactly as many empty slots as the units the partial stacks could not take require |
| Stacking.AddPlanOthers | metroinventories/metroinventories.cjs:191 | the add leaves every other item's partial-stack room unchanged |
| Stacking.AddPlanConforms | metroinventories/metroinventories.cjs:187-212 | the plan keeps every slot within the catalogue's limits |
| Stacking.ScenarioFortyUnits | metroinventories/metroinventories.cjs:187-212 | ten empty slots, stack_max 16, add 40: slots 1-3 hold 16, 16 and 8 and the rest stay empty |
| Stacking.PlaceUniques | metroinventories/metroinventories.cjs:176-184 | the unique placement keeps the list length |
| Stacking.PlanUniques | metroinventories/metroinventories.cjs:176-184 | the unique loop over the free slots computes exactly the unique placement |
| Stacking.PlaceUniquesFacts | metroinventories/metroinventories.cjs:177-184 | placing k ≤ free units: k more of the item, k fewer empty slots, nothing else changed, each used slot formerly empty and holding a fresh id from next..next+k−1 with quantity 1 |
| Stacking.PlaceUniquesDistinct | metroinventories/metroinventories.cjs:180 | the ids handed out grow with the slot number, so no two placed units share one |
| Stacking.PlaceUniquesClamp | metroinventories/metroinventories.cjs:178-184 | asking for more units than free slots places one unit per free slot |
| Stacking.PlaceUniquesInOrder | metroinventories/metroinventories.cjs:176-179 | free slots are used lowest first |
| Removal.Owned | metroinventories/metroinventories.cjs:238 | the listed indices are exactly the slots holding the item, ascending |
| Removal.RemovalOrderFacts | metroinventories/metroinventories.cjs:238 | the removal order lists the slots holding the item, all of them and only them, smallest quantity first |
| Removal.TakeAlong | metroinventories/metroinventories.cjs:241-248 | taking along the removal order keeps the length of the slot list |
| Removal.PlanTake | metroinventories/metroinventories.cjs:241-248 | the take loop over the copy computes exactly the take function |
| Removal.TakeConserves | metroinventories/metroinventories.cjs:243-247 | the loop removes exactly what it no longer needs of the item, and touches only listed slots |
| Removal.TakeExhausts | metroinventories/metroinventories.cjs:241-248 | a need the loop could not meet means every listed slot was emptied |
| Removal.TakeInOrder | metroinventories/metroinventories.cjs:241-242 | a slot the loop changed was reached only after every earlier listed slot was emptied |
| Removal.RemovePlanExact | metroinventories/metroinventories.cjs:237-249 | removing at most what is held takes exactly that many units, only from slots holding the item; the takes sum to it and other items are untouched |
| Removal.RemovePlanShort | inventory-core.cjs:66-75 | asking for more than is held leaves exactly the shortfall unmet and every slot of the item emptied |
| Removal.RemovePlanSmallestFirst | metroinventories/metroinventories.cjs:238-243 | when a slot holding the item changed, every slot holding fewer units, or as many in a lower slot, was emptied |
| Capacity.AddTo | metrotrade/metrotrades.cjs:253 | adding to the tally either keeps its number of lines or appends one line for the item at the end |
| Capacity.Reserve | metrotrade/metrotrades.cjs:260-264 | reserving keeps the list length |
| Capacity.SimulateReceive | metrotrade/metrotrades.cjs:211-270 | the dry run answers exactly the capacity predicate, and writes nothing |
| Capacity.ReserveLoop | metrotrade/metrotrades.cjs:260-264 | the reservation loop computes exactly the reservation function |
| Capacity.PlaceStacks | metrotrade/metrotrades.cjs:266-268 | the stack loop over the reserved copy answers exactly whether every tallied line is stackable and fits, one after another |
| Capacity.AddToKeeps | metrotrade/metrotrades.cjs:253 | the tally keeps one line per item with a positive quantity |
| Capacity.ReserveFacts | metrotrade/metrotrades.cjs:260-264 | reserving k ≤ free slots leaves k fewer empty slots and every item's partial stacks alone |
| Capacity.ApplyStacksIff | metrotrade/metrotrades.cjs:266-268 | distinct positive stackable lines all fit, one after another, exactly when their total demand for empty slots is at most the empty slots there are |
| Capacity.CanReceiveIff | metrotrade/metrotrades.cjs:211-270 | with positive quantities the check answers true exactly when every item is known and the unique units plus the empty slots the stacks need beyond their partial stacks fit in the free slots |
| Capacity.UnknownRefused | metrotrade/metrotrades.cjs:247-248 | an unknown item makes the check fail whatever the slots |
| Capacity.TooFewFreeRefused | metrotrade/metrotrades.cjs:257-258 | fewer free slots than unique units makes the check fail |
| MetroInventories.AddChangeMeaning | metroinventories/metroinventories.cjs:174-218 | an add of qty > 0 succeeds exactly when there is room (one free slot per unique unit; partial room plus stack_max per free slot for a stack); it then adds exactly qty units of the item and changes no other item; on failure nothing changes |
| MetroInventories.AddChangeUniqueSlots | metroinventories/metroinventories.cjs:176-184 | a unique add uses only free slots, each for one unit with a fresh id from next..next+qty−1 |
| MetroInventories.AddChangeRefreshed | metroinventories/metroinventories.cjs:180 | the add hands out ids next..next+qty−1 to the new unique units and leaves every other unit's id alone |
| MetroInventories.ClearFirstFacts | metroinventories/metroinventories.cjs:232-234 | clearing the first k slots of a unique item removes exactly k of its slots and touches no other item |
| MetroInventories.RemoveChangeMeaning | metroinventories/metroinventories.cjs:230-250 | a remove of qty > 0 succeeds exactly when the owner holds at least qty; it then lowers the total by exactly qty and changes no other item; on failure nothing changes |
| MetroInventories.CompactFits | metroinventories/metroinventories.cjs:263-273 | the item's total always fits back into the slots it held plus the empty ones |
| MetroInventories.CompactConserves | metroinventories/metroinventories.cjs:256-274 | compaction as intended keeps every item's total and keeps the slots within the catalogue |
| MetroInventories.CompactPacks | metroinventories/metroinventories.cjs:266-273 | compacted stacks sit lowest first: a filled slot below a later one holds a full stack |
| MetroInventories.CompactAsWrittenLosesAll | metroinventories/metroinventories.cjs:261-273 | as written, with no slot empty before compaction the item is cleared and nothing is laid back, so all of it is lost |
| MetroInventories.InvAddCompactionLoss | metroinventories/metroinventories.cjs:386-389 | inv-add of 2 ore to [ore×3, nine full log stacks] succeeds with 5 ore, after which the compaction as written leaves no ore while the intended one keeps 5 |
| MetroInventories.MoveMeaning | metroinventories/metroinventories.cjs:487-527 | a move is refused exactly when the source is empty, a unique unit meets an occupied slot, or a stack meets a full stack of its item or another item; an accepted move changes only the two slots, keeps every total and carries min(stack_max − destination, clamp(qty ?? source, 1, source)) units |
| MetroInventories.MoveRefreshed | metroinventories/metroinventories.cjs:501-503 | a move carries a unique unit, with its id, into an empty slot and clears its old slot |
| MetroInventories.UseUniqueMeaning | metroinventories/metroinventories.cjs:451-462 | using a unique unit is refused, changing nothing, when it has no durability; otherwise durability becomes max(0, durability − max(1, amount)), the unit keeps its id and maximum, no other slot changes, and the slot is cleared exactly at 0 |
| MetroInventories.UseStackMeaning | metroinventories/metroinventories.cjs:463-470 | with compaction as intended (see Findings): using a stack succeeds exactly when the slot holds at least max(1, amount) units; the item's total then falls by exactly that much, no other item changes, and a refused use changes nothing |
| MetroInventories.UseResultStay | metroinventories/metroinventories.cjs:438-475 | using an item never moves or renumbers a unique unit |
| MetroInventories.InvAddTotals | metroinventories/metroinventories.cjs:385-389 | with compaction as intended (see Findings): inv-add, compaction included, adds exactly qty units when it succeeds and keeps the slots in the catalogue |
| MetroInventories.InvRemoveTotals | metroinventories/metroinventories.cjs:400-403 | with compaction as intended (see Findings): inv-remove, compaction included, removes exactly qty units when it succeeds |
| MetroInventories.PlanClearFirst | metroinventories/metroinventories.cjs:234 | the unique remove loop clears exactly the first k slots holding the item |
| MetroInventories.PlanClearItem | metroinventories/metroinventories.cjs:264 | compaction's clearing loop clears exactly every slot holding the item |
| MetroInventories.RemoveCommitValid | metroinventories/metroinventories.cjs:230-250 | committing an accepted removal keeps the slot table valid |
| MetroInventories.MoveCommitValid | metroinventories/metroinventories.cjs:497-526 | committing an accepted move keeps the slot table valid |
| MetroInventories.UseCommitValid | metroinventories/metroinventories.cjs:451-470 | committing a use keeps the slot table valid |
| MetroInventories.Inventory.EnsureSlots | metroinventories/metroinventories.cjs:106-111 | the table becomes the provisioned one and stays valid |
| MetroInventories.Inventory.AddItemsAtomic | metroinventories/metroinventories.cjs:165-222 | qty ≤ 0 and unknown items are refused untouched; otherwise the rows become the committed add change on the provisioned table, or stay provisioned only when the add fails; the table stays valid |
| MetroInventories.Inventory.RemoveItemsAtomic | metroinventories/metroinventories.cjs:224-253 | qty ≤ 0 and unknown items are refused untouched; otherwise the rows become the committed remove change, or stay provisioned only on failure |
| MetroInventories.Inventory.CompactStacks | metroinventories/metroinventories.cjs:256-275 | unknown and unique items leave the table as is; otherwise the owner's slots become the intended compaction |
| MetroInventories.Inventory.MoveBetweenSlots | metroinventories/metroinventories.cjs:487-527 | identical or out-of-range slots are refused before ensureSlots; otherwise the rows become the move change, committed only when accepted |
| MetroInventories.Inventory.Use | metroinventories/metroinventories.cjs:438-475 | with compaction as intended (see Findings): an out-of-range slot is refused untouched; otherwise the rows become the use result on the provisioned table |
| MetroInventories.Inventory.InvAdd | metroinventories/metroinventories.cjs:376-392 | with compaction as intended (see Findings): inv-add is the atomic add followed, for a stackable item, by compaction |
| MetroInventories.Inventory.InvRemove | metroinventories/metroinventories.cjs:394-408 | with compaction as intended (see Findings): inv-remove is the atomic remove followed, for a stackable item, by compaction |
| MetroInventories.Inventory.InvClear | metroinventories/metroinventories.cjs:428-436 | inv-clear empties all the owner's rows and then provisions it; the table stays valid |
| MetroTrades.FindActiveFrom | metrotrade/metrotrades.cjs:98-101 | the session found is CREATED or LOCKED, in the guild, involves the user, and is the first such from i on; None when there is none |
| MetroTrades.Pick | metrotrade/metrotrades.cjs:463-466 | an explicit id is taken as is when it exists; otherwise the caller's first active session |
| MetroTrades.ReadyFlags | metrotrade/metrotrades.cjs:105-111 | trade-ready sets the caller's side's flag (party b's when the caller is not a) and nothing else |
| MetroTrades.ConfirmFlags | metrotrade/metrotrades.cjs:115-121 | the intended confirm sets party a's flag when the caller is a and party b's when the caller is b, and changes nothing else |
| MetroTrades.ConfirmAsWrittenCompletes | metrotrade/metrotrades.cjs:569 | as written, one confirm sets both confirm flags |
| MetroTrades.ConfirmBothNeeded | metrotrade/metrotrades.cjs:115-121 | as intended, both flags are set exactly when each party has confirmed at least once |
| MetroTrades.Subtract | metrotrade/metrotrades.cjs:128-131 | qOfferRemove lowers the key's row by qty and changes nothing else |
| MetroTrades.Cleanup | metrotrade/metrotrades.cjs:132-134 | qOfferCleanupZero keeps exactly the rows not of the session at or below zero |
| MetroTrades.UpsertMeaning | metrotrade/metrotrades.cjs:123-127 | adding to an offer raises the key's quantity by qty, keeps every other key's, and keeps the primary key unique |
| MetroTrades.OfferRemoveMeaning | metrotrade/metrotrades.cjs:128-134 | removing lowers the key's quantity by qty; rows at zero or below disappear; other keys keep their quantities; the primary key stays unique |
| MetroTrades.Precheck | metrotrade/metrotrades.cjs:278-289 | phase 1 fails exactly at the first offer of an unknown item or one the holdings do not cover |
| MetroTrades.TakeInstances | metrotrade/metrotrades.cjs:294-304 | the unique branch keeps the length of the slot list |
| MetroTrades.EscrowStep | metrotrade/metrotrades.cjs:292-319 | a lock step keeps the list length |
| MetroTrades.Phase2 | metrotrade/metrotrades.cjs:291-321 | phase 2 keeps the list length |
| MetroTrades.MoveToEscrow | metrotrade/metrotrades.cjs:273-324 | when an offer fails phase 1 the move fails with the slots unchanged and no escrow row |
| MetroTrades.TakeInstancesClears | metrotrade/metrotrades.cjs:296-303 | where every holding is a unique unit, the unique branch clears the first slots holding the item and writes one row per cleared slot with its snapshot |
| MetroTrades.ClearedRows | metrotrade/metrotrades.cjs:299 | the rows written for cleared unique slots each carry one unit of the item with its instance id |
| MetroTrades.EscrowStepMeaning | metrotrade/metrotrades.cjs:292-319 | a step on a covered offer always gets everything: the slots become exactly the removal plan's, and the rows carry exactly the offered units, well formed |
| MetroTrades.StepKeepsCover | metrotrade/metrotrades.cjs:292 | a step for one item leaves every offer of another item covered |
| MetroTrades.Phase2Meaning | metrotrade/metrotrades.cjs:291-321 | after a passed phase 1, phase 2 never fails: the offerer loses exactly the offered units and the escrow rows carry them |
| MetroTrades.ProvisionUnits | metrotrade/metrotrades.cjs:144-149 | ensureSlots changes no one's holdings and no other owner's slots |
| MetroTrades.CommitPlan | metrotrade/metrotrades.cjs:200-202 | committing a conforming plan makes o's slots the plan, keeps every other owner's, and keeps the table keyed and conforming |
| MetroTrades.EscrowCommitMeaning | metrotrade/metrotrades.cjs:273-324 | the lock of one party's offers succeeds exactly when every offer passes phase 1; a refused lock changes nothing and writes no row; an accepted one moves exactly the offered units to escrow and no other owner's slots change |
| MetroTrades.TradeAddMeaning | metrotrade/metrotrades.cjs:159-208 | the bot's add succeeds exactly for a positive quantity of a known item with room for it, then adds exactly qty units; in every case it adds nothing else and touches no other owner |
| MetroTrades.PutRowMeaning | metrotrade/metrotrades.cjs:341-352 | placing one escrow row gives the receiver exactly its units when it succeeds and nothing otherwise |
| MetroTrades.DeliverMeaning | metrotrade/metrotrades.cjs:327-357 | a successful delivery gives the receiver exactly the rows' units; one refused by the capacity check changes nobody's holdings; no other owner's slots change |
| MetroTrades.FromUser | metrotrade/metrotrades.cjs:328 | the rows kept are exactly those from the user, in order |
| MetroTrades.RestoreAllMeaning | metrotrade/metrotrades.cjs:617-630 | a rollback that goes through returns to every user of the guild exactly the units that user escrowed, and touches no other guild |
| MetroTrades.OfSession | metrotrade/metrotrades.cjs:141 | the rows kept are exactly those of the session, in order |
| MetroTrades.WithoutSession | metrotrade/metrotrades.cjs:142 | the rows kept are exactly those of the other sessions, in order |
| MetroTrades.FinalizeEscrow | metrotrade/metrotrades.cjs:571-589 | with finalize as intended, both deliveries in one transaction (see Findings): finalize either leaves table and escrow as they were with the session LOCKED, or closes the session and deletes exactly its escrow rows |
| MetroTrades.SwapCounts | metrotrade/metrotrades.cjs:571-572 | two successful deliveries swap the parties' escrowed units |
| MetroTrades.FinalizeConserves | metrotrade/metrotrades.cjs:571-589 | finalize as intended conserves every item: a FINALIZED trade gives each party the other's escrow, a CANCELLED one gives each party back its own, nobody else changes |
| MetroTrades.FinalizeAsWrittenDuplicates | metrotrade/metrotrades.cjs:574-578 | as written, when the delivery to a goes through and the one to b is refused, the rollback also returns b's units: the parties end up with b's whole offer once more than before |
| MetroTrades.PartyOffers | metrotrade/metrotrades.cjs:534-535 | the offers kept are exactly those of the session made by the user |
| MetroTrades.PartyOffersShape | metrotrade/metrotrades.cjs:534-535 | one party's offers name each item once, and are positive when all offers are |
| MetroTrades.PartyOffersTotal | metrotrade/metrotrades.cjs:534-535 | a party's offers for an item amount to the quantity offered under that key |
| MetroTrades.EscrowAppendUnits | metrotrade/metrotrades.cjs:538-539 | appending a's rows and then b's adds their units to the session's escrow, each party's to its own share |
| MetroTrades.PartyMove | metrotrade/metrotrades.cjs:538-539 | one party's move goes through exactly when phase 1 passes, and then takes exactly the offered quantity of every item; a refused move writes nothing |
| MetroTrades.LockMeaning | metrotrade/metrotrades.cjs:536-556 | the lock goes through exactly when both parties pass phase 1, and it is sound: holdings plus escrow are conserved and a failed lock whose rollback goes through gives each party back what it escrowed (on a session with no escrow it always goes through, `DeliveryRoom.LockRestores`) |
| TradeHandlers.PickInRange | metrotrade/metrotrades.cjs:463-466 | the session picked for a command exists |
| TradeHandlers.SessionRowsFromParties | metrotrade/metrotrades.cjs:299 | in valid tables the escrow rows of a session come from its two parties |
| TradeHandlers.OneActiveUpdate | metrotrade/metrotrades.cjs:472-476 | changing one session without changing its parties, and without reopening a closed one, keeps at most one active session per user |
| TradeHandlers.OpenMeaning | metrotrade/metrotrades.cjs:468-483 | trade-open opens exactly when the users differ and neither is in an active session; the new session is CREATED with every flag clear; nothing else changes; at most one active session per user |
| TradeHandlers.OfferAddMeaning | metrotrade/metrotrades.cjs:485-500 | offers change only on a CREATED session with a known item and positive qty: the caller's quantity grows by qty and every other offer stays |
| TradeHandlers.OfferDropMeaning | metrotrade/metrotrades.cjs:502-514 | offers change only on a CREATED session: the caller's quantity falls by qty, the row goes once not positive, every other offer stays |
| TradeHandlers.ReadyKeeps | metrotrade/metrotrades.cjs:524-562 | trade-ready keeps the tables valid, changes sessions only along legal steps, and never touches offers |
| TradeHandlers.ReadyLocks | metrotrade/metrotrades.cjs:531-556 | with both flags set the lock goes through exactly when both parties hold their offers, and is sound; a locked session is LOCKED; a failed lock's rollback always goes through, so the reply is never `Unexpected`, and the session is left CREATED with all flags reset and no escrow |
| TradeHandlers.ConfirmKeeps | metrotrade/metrotrades.cjs:564-593 | with confirm and finalize as intended (each party's own flag, both deliveries in one transaction; see Findings), trade-confirm keeps the tables valid, changes sessions only along legal steps, and never touches offers |
| TradeHandlers.ConfirmAsWrittenMeaning | metrotrade/metrotrades.cjs:564-593 | the handler as written (both flags set by one confirm, two separate delivery transactions) never waits: one confirm on a LOCKED session, by anybody, sets both flags and runs finalize; it completes exactly when each party passes the capacity check for the other's escrow rows; a missing or non-LOCKED session changes nothing |
| TradeHandlers.SessionFinalizeFits | metrotrade/metrotrades.cjs:574-583 | on valid tables, finalize as written and as intended both end FINALIZED exactly when each party passes the capacity check for the other's escrow rows |
| TradeHandlers.ConfirmFinalizes | metrotrade/metrotrades.cjs:570-589 | with finalize as intended, both deliveries in one transaction (see Findings): with both confirms set, finalize runs and is sound: FINALIZED swaps the escrow, CANCELLED returns it, holdings plus escrow are conserved; the trade completes exactly when each party passes the capacity check, on the table as it was, for the other's escrow rows |
| TradeHandlers.CancelKeeps | metrotrade/metrotrades.cjs:595-603 | trade-cancel keeps the tables valid and changes sessions only along legal steps |
| TradeHandlers.CancelReturns | metrotrade/metrotrades.cjs:598-603 | a completed cancel hands every escrow row back to its user, deletes exactly the session's escrow and closes the session; a rollback that throws changes nothing |
| TradeHandlers.NoEscrowUnlocked | metrotrade/metrotrades.cjs:542-556 | in valid tables a session that is not LOCKED has no escrow rows: rows are written only by a lock, which either locks the session or rolls them back |
| DeliveryRoom.PutAllRoom | metrotrade/metrotrades.cjs:341-353 | when the receiver's slots have one empty slot per unique unit plus the empty slots the stacks need beyond their own partial stacks, the insert loop places every row |
| DeliveryRoom.FitsRoom | metrotrade/metrotrades.cjs:211-269 | the capacity check passes only when the receiver's slots have that room for the rows' stackable items |
| DeliveryRoom.DeliverFits | metrotrade/metrotrades.cjs:327-357 | a delivery of well-formed escrow rows goes through exactly when `canReceiveAll` accepts their aggregate |
| DeliveryRoom.DeliveriesFit | metrotrade/metrotrades.cjs:574-575 | each of finalize's two deliveries goes through exactly when its receiver has room on the table before either delivery |
| DeliveryRoom.FinalizeFits | metrotrade/metrotrades.cjs:572-589 | finalize, as written and as intended, ends FINALIZED exactly when both parties pass the capacity check for the other's escrow |
| DeliveryRoom.Phase2Room | metrotrade/metrotrades.cjs:291-321 | phase 2 after a passed phase 1 empties at least the slots its own escrow rows need to come back: one per unique unit taken, plus the stack demand |
| DeliveryRoom.RestoreIsPut | metrotrade/metrotrades.cjs:618-630 | the rollback loop over rows all escrowed by one user is the delivery insert loop into that user's slots |
| DeliveryRoom.EscrowCommitRestores | metrotrade/metrotrades.cjs:273-324 | the rows one escrow move wrote always go back to their owner by the rollback |
| DeliveryRoom.MovesRestore | metrotrade/metrotrades.cjs:542-547 | when one of the lock's two moves is refused, the rollback of the rows both wrote goes through |
| DeliveryRoom.LockRestores | metrotrade/metrotrades.cjs:536-556 | on a session with no escrow, the lock either succeeds or its rollback goes through: it never throws |
| TradeBot.CheckOffers | metrotrade/metrotrades.cjs:279-289 | the phase 1 loop answers exactly the phase 1 check |
| TradeBot.TakeUniqueSlots | metrotrade/metrotrades.cjs:295-304 | the unique loop leaves exactly the slots, rows and need of the unique branch |
| TradeBot.StepEscrow | metrotrade/metrotrades.cjs:293-319 | one offer's loop computes exactly the lock step |
| TradeBot.MoveAll | metrotrade/metrotrades.cjs:292-321 | the offer loop computes exactly phase 2 |
| TradeBot.IncomingLines | metrotrade/metrotrades.cjs:331-337 | the aggregation loop computes exactly the tally of the rows |
| TradeBot.Bot.EnsureSlots | metrotrade/metrotrades.cjs:144-149 | the rows become the provisioned ones and nothing else changes |
| TradeBot.Bot.AddItemsAtomic | metrotrade/metrotrades.cjs:159-208 | the add leaves exactly the outcome and tables of the add step function |
| TradeBot.Bot.PlaceRow | metrotrade/metrotrades.cjs:342-352 | placing one row leaves exactly what the row placement function gives |
| TradeBot.Bot.MoveOfferToEscrow | metrotrade/metrotrades.cjs:273-324 | the escrow move leaves exactly the rows and appended escrow of the lock function |
| TradeBot.Bot.DeliverEscrowTo | metrotrade/metrotrades.cjs:327-357 | the delivery leaves exactly what the delivery function gives |
| TradeBot.Bot.RollbackEscrowToOwners | metrotrade/metrotrades.cjs:615-634 | the rollback leaves exactly the rollback function's rows, and deletes the session's escrow exactly when it goes through |
| TradeBot.Bot.LockOffers | metrotrade/metrotrades.cjs:536-548 | the two moves and the rollback on failure leave exactly the lock function's outcome |
| TradeBot.Bot.FinalizeSession | metrotrade/metrotrades.cjs:571-589 | the finalize leaves exactly the intended finalize function's outcome |
| TradeBot.Bot.TradeOpen | metrotrade/metrotrades.cjs:468-483 | the handler leaves exactly the open step's tables and reply, keeps them valid and moves sessions only along legal steps |
| TradeBot.Bot.TradeOfferAdd | metrotrade/metrotrades.cjs:485-500 | the handler leaves exactly the offer-add step's tables and reply, and keeps them valid |
| TradeBot.Bot.TradeOfferRemove | metrotrade/metrotrades.cjs:502-514 | the handler leaves exactly the offer-remove step's tables and reply, and keeps them valid |
| TradeBot.Bot.TradeReady | metrotrade/metrotrades.cjs:524-562 | the handler leaves exactly the ready step's tables and reply, keeps them valid and moves sessions only along legal steps |
| TradeBot.Bot.TradeConfirm | metrotrade/metrotrades.cjs:564-593 | the handler, with each party's own confirm needed and finalize as intended, leaves exactly the confirm step's tables and reply |
| TradeBot.Bot.TradeCancel | metrotrade/metrotrades.cjs:595-603 | the handler leaves exactly the cancel step's tables and reply, keeps them valid and moves sessions only along legal steps |
| InventoryCore.WriteTopUp | inventory-core.cjs:44-51 | the top-up loop, writing each raised slot at once, leaves exactly the committed top-up pass and its remainder |
| InventoryCore.WriteFill | inventory-core.cjs:52-59 | the fill loop, testing emptiness on the list read at the start, leaves exactly the committed fill pass and its remainder |
| InventoryCore.WriteAddStack | inventory-core.cjs:42-59 | the two loops leave the rows of the add plan, whether or not units remain, and return its remainder |
| InventoryCore.WriteTake | inventory-core.cjs:64-74 | the remove loop leaves the rows of the removal plan, whether or not units remain, and returns its shortfall |
| InventoryCore.AddStackPlaces | inventory-core.cjs:37-61 | the add places min(amount, room) units of the item, where room is what partial stacks and empty slots take; a throwing add has still filled all the room it found |
| InventoryCore.RemoveStackTakes | inventory-core.cjs:63-76 | the remove falls short exactly when the owner holds fewer than amount units; otherwise it takes exactly amount; short, it has cleared every slot of the item; other items stay |
| InventoryCore.SlotOf | inventory-core.cjs:96 | the index returned is a slot holding the instance; None exactly when no slot holds it (instance ids are distinct in a valid table, so at most one slot does) |
| InventoryCore.AddThenRemoveUnique | inventory-core.cjs:78-100 | placing a fresh unique unit in the first free slot and removing it by its id gives back the table as it was |
| InventoryCore.ClearValid | inventory-core.cjs:33-35 | clearing a slot keeps the table valid |
| InventoryCore.Core.EnsurePlayerSlots | inventory-core.cjs:19-22 | the player's missing rows 1..10 are inserted empty; everything stays valid |
| InventoryCore.Core.EnsureOrgSlots | inventory-core.cjs:119-122 | the warehouse's missing rows 1..50 are inserted empty; everything stays valid |
| InventoryCore.Core.InventoryAddStack | inventory-core.cjs:37-61 | unknown item: throws untouched; unique item: throws untouched; otherwise the rows are the add plan written over the provisioned table and it throws exactly when units remain |
| InventoryCore.Core.InventoryRemoveStack | inventory-core.cjs:63-76 | the rows are the removal plan written over the provisioned table, and it throws exactly when units remain |
| InventoryCore.Core.InventoryAddUnique | inventory-core.cjs:78-89 | unknown or non-unique item, or no free slot: throws; otherwise the first free slot gets the unit with a fresh id and a metadata row is recorded |
| InventoryCore.Core.InventoryRemoveUniqueById | inventory-core.cjs:95-100 | no slot holds the instance: throws untouched; otherwise exactly that slot is cleared and the metadata row deleted |
| InventoryCore.Core.OrgInventoryAddStack | inventory-core.cjs:129-153 | unknown or unique item: throws untouched; otherwise the add plan over the warehouse's 50 slots, throwing exactly when units remain |
| InventoryCore.Core.TransferPlayerToOrg | inventory-core.cjs:155-158 | the remove then the add; a throw in the remove skips the add and a throw in the add keeps the remove |
| InventoryCore.TransferOutcome | inventory-core.cjs:155-158 | for an amount the player holds, the player loses exactly amount; a warehouse add that completes gains amount; one that throws gains only its room, so the units in between are lost |
| Municipio.FirstUnique | municipio/municipiocentrale.cjs:218-223 | the index returned is the lowest slot holding a unique unit of the item; None exactly when there is none |
| Municipio.SetUnits | municipio/municipiocentrale.cjs:153-160 | writing one slot changes the owner's units by what left and entered it, and no other owner's slots |
| Municipio.AddThenFind | municipio/municipiocentrale.cjs:206-227 | for a user holding none of the item, the unit placed in a free slot is the one the lookup finds |
| Municipio.ClearedGone | municipio/municipiocentrale.cjs:234 | clearing the slot holding an instance leaves no slot of the owner holding it |
| Municipio.ReceiverFullFacts | municipio/municipiocentrale.cjs:605-608 | a receiver with no free slot is not the sender, whose slot was just freed; provisioning it changes no one's units, and the sender still has a free slot |
| Municipio.PlacedUnits | municipio/municipiocentrale.cjs:206-212 | the unique add into a free slot gives the owner one more unit of the item and leaves every other owner's slots alone |
| Municipio.Adapter.InvEnsureSlots | municipio/municipiocentrale.cjs:135-145 | the user's missing rows 1..10 are inserted empty; the table stays valid |
| Municipio.Adapter.InventoryAddStack | municipio/municipiocentrale.cjs:166-195 | unknown item or unique item: throws untouched; otherwise the rows are the add plan written over the provisioned table, throwing exactly when units remain |
| Municipio.Adapter.InventoryAddUnique | municipio/municipiocentrale.cjs:198-214 | unknown or non-unique item: throws untouched; no free slot: throws after provisioning; otherwise the first free slot gets the unit with a fresh id, and the payload is recorded |
| Municipio.FindUnique | municipio/municipiocentrale.cjs:217-227 | None exactly when no slot holds a unique unit of the item; otherwise the lowest such slot's instance, with its payload or `{}` when the metadata row is missing |
| Municipio.AddedFound | municipio/municipiocentrale.cjs:198-227 | a user who held no unique unit of the item, once the unique add has placed a fresh unit in the first free slot after provisioning, is found holding that unit with its payload |
| Municipio.Adapter.InventoryRemoveUniqueById | municipio/municipiocentrale.cjs:230-236 | the slot holding the instance is cleared when there is one; the metadata row is deleted in every case; afterwards no slot of the user holds the instance |
| Municipio.Adapter.AddCertificate | municipio/municipiocentrale.cjs:198-214 | the certificate add is refused exactly with no free slot after provisioning, and changes then only the provisioning; otherwise one more certificate for the owner, held in one of its slots under the fresh instance id, and the new metadata row for that id; in every case the owner's other items keep their units and every other owner's slots stay as they were |
| Municipio.Adapter.RemoveFound | municipio/municipiocentrale.cjs:603-604 | the certificate found leaves the sender's slot, the sender's count falls by one, the sender's other items keep their units, every other owner's slots stay as they were, and its metadata row is deleted |
| Municipio.Adapter.TradeSim | municipio/municipiocentrale.cjs:594-613 | non-admins and senders without a certificate change nothing; the generic error reply never happens; a transfer moves one certificate from sender to receiver: the receiver holds it under the fresh instance id, whose metadata row carries the sender's payload, and the sender's old instance loses its metadata row; a full receiver gets the certificate back to the sender and both counts are as before; sender and receiver keep their other items' units and every third party's slots stay as they were |

## Left out

- Discord is left out: commands, embeds, replies, nicknames and roles. The audit rows of trade-sim are left out too. Handlers take the caller, the guild and the administrator check as parameters.
- SQLite is left out: no prepared statements, pragmas or concurrency between bots. Every operation runs in sequence.
- A transaction is modelled as a plan on copies that is then committed or dropped. A thrown error inside a transaction restores the state saved before it.
- `crypto.randomUUID` is modelled as the `nextId` counter.
- Item ids are not trimmed. The handlers trim them; the model takes ids as given.
- The catalogue is a fixed map from item to `stack_max`, with `stack_max` ≥ 1 because item-upsert refuses anything below 1. So `stack_max || 16` is modelled as `stack_max`. Item upsert and catalogue listing are not modelled.
- The durability of stacks and of units added through the trade bot is not modelled: they get none.
- The durability values passed to inv-add are not followed further than the slot they are stored in.
- JSON payloads (`inventory_instances_meta.payload_json`) are opaque strings. `JSON.parse` and `JSON.stringify` are taken to give back the same text.
- The library's `InventoryFindUnique` (inventory-core.cjs:91-93) is not part of this model. It returns an unordered row, and no caller in the modelled code uses it.
- `listPlayerSlots`, `updatePlayerSlot`, `clearPlayerSlot` and `listOrgSlots` are modelled inside the operations that call them, not as members of their own.
- `qGetOffers` sorts a session's offers by user and item (`ORDER BY from_user_id, item_id`); the model keeps them in insertion order. A party's offers name distinct items, and a lock that passes phase 1 never fails in phase 2 (`MetroTrades.Phase2Meaning`). For these reasons the order changes only the order of the escrow rows.
- TradeBot.Bot: the class invariant does not track that instance ids are distinct. The trade bot's tables are kept keyed and conforming only.
- Capacity.CanReceiveIff: is stated for positive quantities. The handlers only ever pass positive ones.
- Removing stacks in the library (inventory-core.cjs:66) also takes unique slots of the item and clears them. Their metadata rows are left behind.
- Municipio.Adapter.TradeSim: a certificate put back with the sender gets a new instance id and possibly a different slot. Only the per-item certificate counts are stated as restored.
- Municipio.Adapter.TradeSim: the reply `ReceiverFull` carries the refusal reason from the receiver's add. The message text is not modelled.
- UseStackMeaning: is stated for the corrected compaction `MetroInventories.Compact`, not for the compaction as written (`CompactAsWritten`, which can lose units; see Findings).
- InvAddTotals: is stated for the corrected compaction `MetroInventories.Compact`; the compaction as written can lose units (see Findings).
- InvRemoveTotals: is stated for the corrected compaction `MetroInventories.Compact`; the compaction as written can lose units (see Findings).
- Use: the class method commits the corrected compaction `MetroInventories.Compact`, not the compaction as written (see Findings).
- InvAdd: the class method commits the corrected compaction `MetroInventories.Compact`, not the compaction as written (see Findings).
- InvRemove: the class method commits the corrected compaction `MetroInventories.Compact`, not the compaction as written (see Findings).
- FinalizeEscrow: is stated for the corrected `MetroTrades.Finalize`, whose two deliveries commit together; `FinalizeAsWritten` commits them separately (see Findings).
- ConfirmFinalizes: the confirm handler runs the corrected `MetroTrades.Finalize`, not `FinalizeAsWritten`, and sets only the caller's own flag (`ConfirmFlags`), not both flags as `qConfirm` is called (`ConfirmFlagsAsWritten`); see Findings. The handler as written is `TradeHandlers.ConfirmAsWritten`, described by `ConfirmAsWrittenMeaning`.
- ConfirmKeeps: is stated for the corrected confirm handler `TradeHandlers.Confirm` (own flag only, one-transaction finalize); validity is not proved for `ConfirmAsWritten`, whose finalize can return escrow twice (see Findings).
- TradeConfirm: the class method runs the corrected confirm (own flag only, via `FinalizeSession`); the handler as written is modelled only as the function `TradeHandlers.ConfirmAsWritten` (see Findings).
- FinalizeSession: the class method runs the corrected `MetroTrades.Finalize`, both deliveries undone together; the two separate transactions as written are modelled only by the function `FinalizeAsWritten` (see Findings).
- CompactStacks: the class method commits the corrected compaction `MetroInventories.Compact`, not the compaction as written (`CompactAsWritten`, which can lose units; see Findings).
- The metroinventories handlers for `inventario`, `item-list` and `item-upsert` are display or catalogue glue and are not modelled.

## Findings

| source | as written | input that shows it | evidently intended | confidence | as-written member | corrected member |
|---|---|---|---|---|---|---|
| metrotrade/metrotrades.cjs:574-578 | the two deliveries are separate transactions; when the second fails, the rollback also returns the escrow already delivered by the first | a's delivery of b's rows goes through, b has no room for a's rows, and the rollback goes through | both deliveries commit together or not at all, so the rollback starts from the table as it was | high (not executed) | MetroTrades.FinalizeAsWrittenDuplicates | MetroTrades.FinalizeConserves |
| metroinventories/metroinventories.cjs:261-273 | compaction reads the slots once, clears the item's slots, and lays the total back only into slots that were empty in that earlier read | slots [ore×3 and nine full stacks of log], inv-add 2 ore: the add tops slot 1 up to 5, then compaction clears it and finds no slot that was empty before | the item is laid back into its own cleared slots too, so no unit is lost | high (not executed) | MetroInventories.InvAddCompactionLoss | MetroInventories.CompactConserves |
| metrotrade/metrotrades.cjs:115-121 | trade-confirm passes both party ids to qConfirm (line 569), so any caller's confirm sets both flags and finalize runs at once | a LOCKED session, party a calls trade-confirm once | only the caller's flag is set; finalize waits for the other party | high (not executed) | MetroTrades.ConfirmAsWrittenCompletes | MetroTrades.ConfirmBothNeeded |
