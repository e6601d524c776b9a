# Models of the robot client

The robot is the Go load and smoke client of a game server. Most of it sends requests; six places hold real
algorithms, and these Dafny modules model them and prove what they are for.

- **Forge reconciliation** (`Scale`, `Bags`, `Forge`, `ForgeFields`, `ForgeRuns`, `ForgeLimits`, `Panels`): the checks that compare the
  two bags, the equipped item and the attribute panel before and after an enhancement, an inlay or a removal. A checker
  is a method with its loops and tables, proved against a declarative relation between two snapshots, which is stated
  once more on the message fields; whole runs are sequences of snapshots related by those relations.
- **Bag layouts and affixes** (`Sorting`, `Layouts`, `EquipLayout`, `Affixes`): coherence of one bag, the shape of both bags
  after putting equipment on or off, and the random attribute lines.
- **Login queue** (`QueueTrace`, `QueueClient`): the client is a class driven by arbitrary gateway replies, latencies,
  late timers and jitter. It keeps a ghost trace of its requests and waits; the rules of the trace are stated once and
  everything else is proved of every trace that keeps them. Rules, world and end leave a run no choice.
- **Unread mail** (`Mailbox`, `MailServer`, `MailCheck`, `MailPages`, `MailRuns`, `MailLateArrival`): a model of the mail
  server's steps and pages, the client's accounting between two listings, its cursor loop, and both together over
  runs in which every page is served from the mailbox of its own moment.
- **Token refresh and reconnecting** (`Refresh`, `Robot`): one-shot refresh tokens over all ticks of a session, and the retry
  loop that decrements its own counter.
- **Network probe** (`Framing`, `ProbeCache`): the length-prefixed, checksummed frames as bytes, one probe, and the cache
  with its deadlines over every interleaving of its critical sections.
- **Channel directories** (`Channels`): the single-pass validator, the stability check and the choice of a line.

`Ints` holds the machine integers. Field values are bounded subset types; where the Go code must not wrap, the body
is written with range-checked newtypes, and where it converts or wraps, that is written out. Durations are integers
of nanoseconds (milliseconds in `Robot`). Protobuf messages are values, so `proto.Equal` is `==` and `proto.Clone` is the
value itself. The network, clocks, timers and randomness are arbitrary functions handed to the methods.

`dafny verify dfyconfig.toml` verifies everything.

## What the proofs brought to light

Each of these is stated by lemmas: an input that fails, and the condition under which the code does what it is meant
to do.

1. Inlay then remove restores the target if and only if the gem icon key of the socket comes back; no check reads that
   field (`ForgeRuns.InlayThenRemove`, `ForgeLimits.IconMayStay`).
2. The three operation checks look only at the first record of a socket number. Gems are conserved if and only if
   the records behind come to hold neither more nor fewer (`ForgeRuns.RunConservesIff`, `ForgeRuns.SocketStepConservesIff`); with a
   repeated number one gem may fill two sockets (`ForgeLimits.DuplicateSocketsMintGems`). The display check rules
   repeated numbers out, and with distinct numbers every run conserves (`ForgeRuns.RunConservesItems`).
3. `featureBagsEqual` sorts with `sort.Slice`, which leaves ties open: bags of equal contents are sure to be recognised
   if and only if equal ids mean equal items and equal slots equal entries (`Bags.RecognisedIff`). Two different stacks
   under one id are sorted in either order; a sort that keeps ties in place then finds two such bags different
   (`Bags.TieHidesEquality`).
4. A panel with two disagreeing rows of one id differs from itself (`Panels.ContradictionDiffersFromItself`), which it
   does if and only if there are such rows (`Panels.ReflexiveIff`). An empty difference is one-sided when ids repeat
   (`Panels.RepeatedIdIsOneSided`); it turns around if and only if rows of one id agree in the second panel and its
   ids are among those of the first (`Panels.TurnsAroundIff`). On distinct ids it is an equivalence
   (`Panels.DiffIsEquivalence`). An allowed shift of the attacks is exact if and only if the sum fits 64 bits, so a
   positive one may wrap (`Panels.AllowedShiftIsExact`, `Panels.PositiveShiftMayWrap`).
5. The cursor check of `listAll` asks mail ids to descend, while the server pages by (sent_ms, mail_id) and scatters its
   ids. An unchanging mailbox is refused if and only if from one full page to the next the id of the last mail rises
   while more mails follow (`MailPages.SticksIff`); 101 mails suffice (`MailPages.RisingMailboxIsRefused`). The comment
   in `mail_smoke_scenario.go` and the query in `inbox.go` disagree; the model follows the code of both.
6. The server keeps listing an expired mail while its claim is pending or needs a hand, so "counted means not expired"
   is not what it does. The account is exact all the same, because starting a claim marks the mail read
   (`Mailbox.StepKeepsClaimsRead`, `MailCheck.RunIsJudgedExactly`).
7. Over several pages the account relies on new mail sorting first. A mail sent in the same millisecond under a smaller
   id may arrive behind the cursor, and then a true count is refused (`MailLateArrival.TrueCountIsRefused`). Over every
   run a true count is accepted if and only if what the listings show expiring and what was gained does not exceed
   what lapsed and what they show arriving (`MailRuns.TrueCountAcceptedIff`), which holds whenever new mail sorts
   first and at most a page of it arrives (`MailRuns.HonestServerIsAccepted`).
8. The frame decoder compares the checksum last and only logs a mismatch. One damaged byte of a payload always
   mismatches, but whether the frame is handed on depends on its name length, name and body alone
   (`Framing.HandedOnIff`, `Framing.DamageIsSeenNotRefused`, `Framing.DamagedBodyIsHandedOn`).
9. Measuring stamps are whole milliseconds. A stored probe keeps the 40 s margin if and only if it is never hit, being
   valid for 40 s or less, or its last sample was measured after the probe began by at least the fraction that its
   stamp cut off (`ProbeCache.MarginKeptIff`); otherwise a hit may fall short of it, by less than a millisecond (`ProbeCache.HitLeavesMargin`, `ProbeCache.MarginMayFallShort`).
   Absurd expiry times wrap the duration arithmetic, but only towards earlier deadlines
   (`ProbeCache.DeadlineIsConservative`).
10. An expired gate token on the first attempt makes the next attempt the first one again, which skips the wait: the
    200 ms back-off applies if and only if some attempt had failed otherwise (`Robot.ExpiryBackoff`,
    `Robot.ExpiryWithoutPause`). The 30 s cap on the back-off is out of reach (`Robot.WaitsInRange`).
11. Of two successive refreshes over HTTP the second sends the same token if and only if the first reply was a success
    that brought no new one and no other token came meanwhile (`Refresh.SentTwiceIff`, `Refresh.ResendAfterKeptToken`). After every other
    outcome no later tick sends it (`Refresh.Refresher.Tick`).
12. A refresh attempt may begin after the 15 s budget, if and only if its timer fires that late
    (`Refresh.BeginsLateIff`, `Refresh.LateTimerBeginsAfterBudget`); it is then over at once, so no answer is taken
    outside the budget (`Refresh.InsideBudget`).

## Model

| member | source | states |
|---|---|---|
| Scale.ScaleByPermyriad | robot/equip_forge_smoke_scenario.go:834-854 | For every uint64 base and uint32 permyriad the Go arithmetic yields min(base + floor(base * p / 10000), 2^64 - 1), never less than the base, and no intermediate value wraps (every operation is on a range-checked word). |
| Scale.ScaledMonotone | robot/equip_forge_smoke_scenario.go:834-854 | More base or more permyriad never scales to less. |
| Scale.ScaledAtLeastBase | robot/equip_forge_smoke_scenario.go:834-836 | Scaling keeps at least the base; a zero bonus is the identity. |
| Scale.ShareOf | robot/equip_forge_smoke_scenario.go:834-850 | The "whole ten-thousands + remainder" split computes exactly the floored share of the whole. |
| Scale.GuardIsOverflowTest | robot/equip_forge_smoke_scenario.go:840-843 | The division guard holds if and only if the product fits 64 bits. |
| Bags.FindItem | robot/equip_smoke_scenario.go:844-851 | The first item with the id; none exactly when no item has it. |
| Bags.Occupant | robot/equip_smoke_scenario.go:866-874 | The item of the first entry for a slot; 0 for a slot without entry. |
| Bags.SocketOf | robot/equip_forge_smoke_scenario.go:890-898 | The first socket record with the number; none exactly when no record has it. |
| Bags.BagsEqual | robot/features_smoke_scenario.go:584-594 | A positive answer means equal contents up to the order of items and slot entries; where equal ids mean equal items and equal slots equal entries, all bags of equal contents are accepted. |
| Bags.RecognisedIff | robot/features_smoke_scenario.go:584-594 | Whatever sort.Slice makes of ties, two bags of equal contents are recognised if and only if equal keys mean equal elements in them. |
| Bags.TieHidesEquality | robot/features_smoke_scenario.go:589-593 | Two orders of a bag with two different stacks under one id: equal contents, both already sorted by id, and different item by item. |
| Bags.ConfigCounts | robot/equip_forge_smoke_scenario.go:799-806 | The table holds, for every config, the sum of the counts that CountIsUnits pins down, and the 64-bit additions cannot wrap on a repeated field. |
| Bags.CountIsUnits | robot/equip_forge_smoke_scenario.go:799-806 | A config's count is the cardinality of its units, the pairs of a stack and a number below the count of that stack, however they are stacked. |
| Bags.CountsDiff | robot/equip_forge_smoke_scenario.go:812-832 | Reports exactly the configs on which the two tables differ (a missing key is 0), in ascending order. |
| Sorting.SortedPermutationUnique | robot/features_smoke_scenario.go:589-592 | Where equal keys mean equal elements there is one sorted arrangement, so sorting both sides makes the comparison blind to order. |
| Sorting.ArrangementsAgreeIff | robot/features_smoke_scenario.go:589-592 | All sorted arrangements of two orders of the same elements agree if and only if equal keys mean equal elements. |
| Forge.OthersThan | robot/equip_forge_smoke_scenario.go:936-951 | Stripping keeps exactly the items with another id. |
| Forge.CheckSockets | robot/equip_forge_smoke_scenario.go:1029-1058 | Accepts exactly the socket lists that follow the definitions one by one, with empty sockets bare and gem attributes well-formed. |
| Forge.CheckBaseLines | robot/equip_forge_smoke_scenario.go:1060-1099 | Accepts exactly the lines whose value is the scaled table value, whose bonus is the difference and whose preview is the table value scaled by the next permyriad. |
| Forge.CheckTargetDisplay | robot/equip_forge_smoke_scenario.go:1101-1150 | Accepts exactly the well-displayed targets: level bounds, next-level preview, base lines and sockets. |
| Forge.CheckLedger | robot/equip_forge_smoke_scenario.go:1152-1196 | Acceptance means: target neither lost nor duplicated nor moved, gold down by the amount given, counts as wanted, the rest of the equipment bag unchanged; where equal ids mean equal items also conversely. |
| Forge.CountsAfterEnhance | robot/equip_forge_smoke_scenario.go:1227-1234 | The wanted counts are the old ones minus the previewed material; refused exactly when the material does not suffice. |
| Forge.CheckEnhancedTarget | robot/equip_forge_smoke_scenario.go:1239-1279 | Accepts exactly the targets that changed as an enhancement may: reported level, nothing at all when the level stays, else only the enhancement fields, each line by the new permyriad, and as previewed on success. |
| Forge.CheckEnhance | robot/equip_forge_smoke_scenario.go:1198-1281 | Acceptance means the declarative relation Enhanced between the snapshots; where equal ids mean equal items also conversely. |
| Forge.CheckInlay | robot/equip_forge_smoke_scenario.go:1283-1340 | Acceptance means the relation Inlaid: one gem of the config less, the empty socket filled with that gem and its attribute, all else equal; where equal ids mean equal items also conversely. |
| Forge.CheckRemove | robot/equip_forge_smoke_scenario.go:1342-1380 | Acceptance means the relation Removed: the gem back in the inventory, the socket empty with its definition kept, all else equal; where equal ids mean equal items also conversely. |
| Forge.ItemsOfConfig | robot/equip_smoke_scenario.go:853-864 | Exactly the items of the config, each as often as in the bag, by ascending item id. |
| ForgeFields.PriceIsPaid | robot/equip_forge_smoke_scenario.go:1177-1183 | In the gold fields of bags that carry one: the price is paid once and both bags agree afterwards. |
| ForgeFields.GoldOnFields | robot/equip_forge_smoke_scenario.go:1198-1380 | An accepted enhancement takes the previewed gold, an inlay and a removal take none, field by field. |
| ForgeFields.EnhancementOnFields | robot/equip_forge_smoke_scenario.go:1198-1281 | In figures, over every accepted enhancement: one level up with the previewed bonus, or old level = new level + min(old level, loss) at a rate below 10000; the previewed number of material units is gone and no other unit of any config. |
| ForgeFields.LinesOnFields | robot/equip_forge_smoke_scenario.go:1243-1275 | At an unchanged level the target is unchanged; else every line keeps attribute and table value and shows it scaled by the new permyriad, saturated at 2^64 - 1. |
| ForgeFields.DisplayOnFields | robot/equip_forge_smoke_scenario.go:1029-1150 | A target is well-displayed if and only if its fields are those of the weapon 1101 with twelve levels: preview, base line of 40 with bonus and preview, and the two sockets, all in figures. |
| ForgeFields.InlayOnFields | robot/equip_forge_smoke_scenario.go:1283-1340 | Over every accepted inlay exactly one unit of the gem is gone, the empty socket shows that gem with the attribute that the gem's stack of the least item id showed, and keeps its own type and name. |
| ForgeFields.RemovalOnFields | robot/equip_forge_smoke_scenario.go:1342-1380 | Over every accepted removal exactly one unit of the gem from the socket is back, and the socket is bare with its definition kept. |
| ForgeFields.TargetStays | robot/equip_forge_smoke_scenario.go:1159-1176 | A target whose only entry moves to another slot, or that changes bag, is in no accepted ledger; it is never in both bags. |
| ForgeFields.RestIsUntouched | robot/equip_forge_smoke_scenario.go:1187-1190 | Every other item of the equipment bag, every slot entry and the slot definitions are there before exactly when they are afterwards. |
| ForgeFields.SuccessIsAccepted | robot/equip_forge_smoke_scenario.go:1198-1281 | Concrete snapshots: ten units of ore less three, 100 gold less 30, damage 40 to 42 - a success that is accepted, well-displayed on both sides. |
| ForgeFields.FailureIsAccepted | robot/equip_forge_smoke_scenario.go:1239-1279 | Concrete snapshots: a failure with loss 2 from level 3 to level 1 that is accepted. |
| ForgeRuns.RunSpendsPreviewedGold | robot/equip_forge_smoke_scenario.go:1158-1380 | Over every run of accepted operations the final gold is the initial gold minus the sum of the previewed costs. |
| ForgeRuns.RunConservesItems | robot/equip_forge_smoke_scenario.go:1158-1380 | Over every run with distinct socket numbers, for every config but 0 (which marks an empty socket): inventory count + target sockets holding it + amount consumed as material is constant. |
| ForgeRuns.RunConservesIff | robot/equip_forge_smoke_scenario.go:963-973 | Over every run whatsoever, for every config but 0: that sum is constant if and only if the steps add up to nothing in the records behind the first one of a socket number, which no check looks at. |
| ForgeRuns.SocketStepConservesIff | robot/equip_forge_smoke_scenario.go:1289-1380 | One accepted inlay or removal conserves a config but 0 if and only if the records behind the first one of its socket number hold equally many before and after. |
| ForgeRuns.RunKeepsTarget | robot/equip_forge_smoke_scenario.go:1152-1157 | Over every run the target keeps bag, slot, identity, table values and socket definitions, and the rest of the equipment bag is untouched. |
| ForgeRuns.FixedOnFields | robot/equip_forge_smoke_scenario.go:1152-1157 | What a run keeps of the target, field by field: identity, names, class, affixes, level bound, gem fields, and attribute and table value of every base line. |
| ForgeRuns.RunReportsLevel | robot/equip_forge_smoke_scenario.go:1203-1243 | After every run the target shows the level the last enhancement reported. |
| ForgeRuns.StepBalances | robot/equip_forge_smoke_scenario.go:1203-1380 | For every config but 0 the balance of one accepted operation of any kind, up to what it adds unseen behind a first record. |
| ForgeRuns.StepFixed | robot/equip_forge_smoke_scenario.go:1203-1380 | What one accepted operation of any kind leaves alone. |
| ForgeRuns.HeldSplit | robot/equip_forge_smoke_scenario.go:963-973 | A socket list holds what its blinded copy holds, what the blinded socket holds and what stands behind it under the same number. |
| ForgeRuns.SocketsRebuilt | robot/equip_forge_smoke_scenario.go:963-973 | Two lists following the same definitions that agree on one socket and after blinding it are equal, order included. |
| ForgeRuns.InlayThenRemove | robot/equip_forge_smoke_scenario.go:1283-1380 | Inlay then remove restores gold, all counts, place and the rest of the equipment bag; the target returns field by field if and only if the gem icon key of the socket does. |
| ForgeRuns.EnhancementMatchesPreview | robot/equip_forge_smoke_scenario.go:1060-1281 | A successful enhancement of a well-displayed target gives each base line exactly the scaled table value of the preview; bonus, value and preview agree and no line drops. |
| ForgeLimits.IconMayStay | robot/equip_forge_smoke_scenario.go:1347-1378 | Concrete snapshots on which both checks accept although the target is not restored: the icon key is read by neither. |
| ForgeLimits.DuplicateSocketsMintGems | robot/equip_forge_smoke_scenario.go:1289-1340 | Concrete snapshots with a repeated socket number on which an accepted inlay fills two sockets with one gem. |
| Layouts.Inventory | robot/features_smoke_scenario.go:554-582 | Succeeds exactly on coherent bags (usable distinct items, slots in range and distinct, references distinct and real, as many as items), and its totals are the sums per stack key and add up to all counts. |
| Layouts.CoherentOnFields | robot/features_smoke_scenario.go:554-582 | The accepted bags in terms of the messages: usable distinct items, as many one-cell entries as items, each below the capacity, no slot and no item twice, each for an item of the bag - if and only if. |
| Layouts.TotalIsUnits | robot/features_smoke_scenario.go:554-568 | A total is the cardinality of the units of exactly that config, kind and stack size, so that different ones are never added together. |
| Layouts.CoherentIsBijection | robot/features_smoke_scenario.go:569-581 | In a bag it accepts every item stands in exactly one slot: injective references plus equal counts are a bijection. |
| Layouts.ComparisonIsEquivalence | robot/features_smoke_scenario.go:584-594 | On accepted bags "same contents" is reflexive, symmetric and transitive, keeps coherence, and coincides with the answer of the comparison. |
| Layouts.CoherenceIgnoresOrder | robot/features_smoke_scenario.go:554-582 | Acceptance does not depend on the order of items and slot entries. |
| Layouts.SumWithout | robot/features_smoke_scenario.go:560-568 | The sum over the totals does not depend on the order in which the table is read. |
| EquipLayout.CheckSnapshot | robot/equip_smoke_scenario.go:895-908 | Accepts exactly the coherent snapshots of the wanted bag type. |
| EquipLayout.CheckSlotDefs | robot/equip_smoke_scenario.go:1036-1061 | Accepts exactly strictly ascending definitions that describe every wanted slot. |
| EquipLayout.CheckLayout | robot/equip_smoke_scenario.go:1078-1130 | Accepts exactly the layouts with coherent bags, the conserved total, the expected occupant in every expected slot, and the expected items in the inventory. |
| EquipLayout.LayoutOnFields | robot/equip_smoke_scenario.go:1078-1130 | Of two coherent bags exactly those layouts are accepted in which, field by field, the bag types are 0 and 2, the total is kept, the slots 3 to 6 are described in ascending definitions, each expected item stands in its slot and not in the inventory, and the inventory holds what it must. |
| EquipLayout.SlotsArePinned | robot/equip_smoke_scenario.go:1108-1123 | In an accepted layout an entry stands in a slot if and only if an item is expected there, and it is that item's. |
| EquipLayout.OneSlotPerItem | robot/equip_smoke_scenario.go:1121-1123 | In an accepted layout different expected slots hold different items. |
| EquipLayout.EquippedIdsAreAll | robot/equip_smoke_scenario.go:1121-1123 | The expected ids are all the ids of the equipment bag (pigeonhole over slots, references and items). |
| EquipLayout.LayoutIsPinned | robot/equip_smoke_scenario.go:1078-1123 | The equipment bag holds exactly the expected items. |
| EquipLayout.NothingInBothBags | robot/equip_smoke_scenario.go:1121-1128 | The check the source leaves out cannot fail: no id is in both bags, in particular none that must be in the inventory. |
| Affixes.CheckAffixLines | robot/equip_smoke_scenario.go:910-966 | Accepts exactly: a blue block of 1 to 3 lines with distinct attributes, then at most one pink, then at most one yellow line, each block numbered from 0 with sound values - said both of the block split and of the single lines; the bound of 5 on the total is implied. |
| Affixes.RollableIsLines | robot/equip_smoke_scenario.go:910-966 | Lines that split into such blocks are, line by line, in tier order, of sound values, numbered by position while blue and 0 behind, with no pink or yellow tier twice and no blue attribute twice. |
| Affixes.LinesAreRollable | robot/equip_smoke_scenario.go:910-966 | And lines like that split into such blocks. |
| Affixes.CountTiers | robot/equip_smoke_scenario.go:920-956 | The loop with its tables computes the recursive scan of the lines. |
| Affixes.ScanMeaning | robot/equip_smoke_scenario.go:920-954 | The scan succeeds exactly when the lines split into blocks, and then its row counts are that split. |
| Affixes.BlocksUnique | robot/equip_smoke_scenario.go:955-963 | A split into blocks is determined by the lines. |
| Panels.PanelCompare | robot/equip_smoke_scenario.go:1170-1206 | Reports nothing exactly when all six limits and every dimension and combat row of the first panel relate to their counterparts and the row counts agree. |
| Panels.PanelOnFields | robot/equip_smoke_scenario.go:1144-1181 | What is compared, field by field: maximal health and mana, both attacks, speed and defense, and the rows; current health and mana are not. |
| Panels.RowsOnFields | robot/equip_smoke_scenario.go:1182-1204 | On distinct ids the rows compare equal if and only if there are equally many and each row of the first panel has one of its id and numbers in the second. |
| Panels.ReflexiveIff | robot/equip_smoke_scenario.go:1182-1211 | A panel compares equal to itself if and only if its rows of one id agree on their numbers. |
| Panels.TurnsAroundIff | robot/equip_smoke_scenario.go:1182-1211 | When a compares equal to b, b does to a if and only if rows of one id agree in b and the ids of b are among those of a. |
| Panels.ContradictionDiffersFromItself | robot/equip_smoke_scenario.go:1192-1200 | A concrete panel with two disagreeing rows of one id that differs from itself. |
| Panels.DiffIsEquivalence | robot/equip_smoke_scenario.go:1208-1211 | On distinct ids an empty difference is therefore an equivalence, although rows are looked up in one direction only. |
| Panels.PanelConverse | robot/equip_smoke_scenario.go:1170-1216 | On distinct ids the comparison turns around under the converse relation. |
| Panels.SameRows | robot/equip_smoke_scenario.go:1182-1204 | On distinct ids the one-directional lookup plus the row counts forces equal id sets. |
| Panels.NoDropBothWays | robot/equip_smoke_scenario.go:1213-1216 | On distinct ids no drop in either direction means no difference. |
| Panels.RepeatedIdIsOneSided | robot/equip_smoke_scenario.go:1192-1204 | Concrete panels with a repeated id for which the answer depends on the direction. |
| Panels.CheckPanelShift | robot/equip_forge_smoke_scenario.go:1418-1438 | Accepts exactly when both attacks shifted by the signed delta in 64-bit arithmetic and every other compared number stayed. |
| Panels.ShiftOnFields | robot/equip_forge_smoke_scenario.go:1418-1438 | Exactly the shifts are accepted in which, field by field, both attacks move by the delta modulo 2^64 without falling below 0 and maximal health and mana, speed, defense and rows stay, whatever current health and mana do. |
| Panels.ShiftMeaning | robot/equip_forge_smoke_scenario.go:1432-1433 | The conversions uint64 - int64 - uint64 amount to adding delta modulo 2^64. |
| Panels.OppositeShift | robot/equip_forge_smoke_scenario.go:1427-1433 | Shifting by the opposite delta undoes the shift, also for the smallest int64. |
| Panels.OppositeShiftsRestore | robot/equip_forge_smoke_scenario.go:1418-1438 | A shift by d followed by one by -d leaves no compared number of the first and the last panel different; on distinct ids in both directions of the lookup. |
| Panels.AllowedShiftIsExact | robot/equip_forge_smoke_scenario.go:1429-1433 | An allowed shift is exact if and only if the sum stays below 2^64; so only a positive delta may wrap. |
| Panels.PositiveShiftMayWrap | robot/equip_forge_smoke_scenario.go:1429-1433 | The largest attack shifted up by one is allowed and becomes 0. |
| Ints.Residue64 | robot/equip_forge_smoke_scenario.go:1433 | The conversion to int64 changes a value by a multiple of 2^64 only. |
| QueueClient.HeldTokenWait | robot/http_assign_gate.go:157-171 | On int64 nanoseconds, without overflow: base plus the drawn jitter held between 0 and a fifth of base, base being the larger of retry_after and min(2 s * 2^(n-1), 30 s), 2 s for n = 0; so at least retry_after and at least 2 s. |
| QueueClient.Client.AssignGate | robot/http_assign_gate.go:233-236 | A request that keeps the rules of the trace, with the outcome and the time of the call that the world has next. |
| QueueClient.Client.QueueStatus | robot/http_assign_gate.go:329-333 | A poll, only with the held token and right after a completed wait inside the budget. |
| QueueClient.Client.Sleep | robot/http_assign_gate.go:122-133 | A wait completes if and only if its timer, however late, fires before the deadline; it is the prescribed one for the drawn jitter. |
| QueueClient.Client.PollHeld | robot/http_assign_gate.go:220-231 | The failure counter stays the number of trailing failed polls; the reply handed on is the last of the trace, and each way out is a stated end. |
| QueueClient.Client.Recover | robot/http_assign_gate.go:336-346 | Behind a failed poll one request follows at once with the same token, unless the budget is used up; its failure ends the run as a failed recovery, also after the deadline. |
| QueueClient.Client.WaitHeld | robot/http_assign_gate.go:266-271 | The wait before a poll is the one prescribed for the last reply, the failures and the drawn jitter. |
| QueueClient.Client.WaitAndPoll | robot/http_assign_gate.go:266-271 | Waits, polls and uses up budget; every way out is a stated end. |
| QueueClient.Client.OnQueued | robot/http_assign_gate.go:250-280 | The queued branch keeps every rule and uses up budget. |
| QueueClient.Client.OnExpired | robot/http_assign_gate.go:295-312 | Only this branch empties the token, and only when there is one. |
| QueueClient.Client.Run | robot/http_assign_gate.go:183-319 | For every reply sequence the client terminates (budget left, then token held) with a whole run in its world: every rule of the trace kept, every outcome and time the world's, the end the one its last event calls for; on admission its statistics say what the trace says. |
| QueueClient.RunIsDetermined | robot/http_assign_gate.go:183-319 | Two whole runs in one world - replies, latencies, timers, jitter - are the same event for event and end the same: the rules and ends leave the client no choice. |
| QueueTrace.RunsAgree | robot/http_assign_gate.go:183-319 | Of two runs in one world the shorter is the beginning of the longer. |
| QueueClient.EndIsFinal | robot/http_assign_gate.go:183-319 | After a stated end the rules allow no further event, so no run ends early. |
| QueueClient.AdmissionIsTaken | robot/http_assign_gate.go:239-248 | A run whose last event hands over code 0 ends as an admission with that reply, be it after the deadline. |
| QueueClient.RankIsHighest | robot/http_assign_gate.go:250-257 | The reported rank is the highest any queued reply carried, and a queue was entered if and only if there was one. |
| QueueTrace.RequestBound | robot/http_assign_gate.go:183-205 | Started without a token a client sends at most 1 + 3 * completed waits requests (2 + 3 * waits with one). |
| QueueTrace.PollPace | robot/http_assign_gate.go:144-171 | Every poll is paid for by at least two seconds of waiting. |
| QueueTrace.PollBudget | robot/http_assign_gate.go:144-171 | A budget of B allows fewer than B / 2 s polls. |
| QueueTrace.RequestsKeepContract | robot/http_assign_gate.go:201-205 | No request but the first starts after the budget; every poll carries the held non-empty token and directly follows a wait of the prescribed length. |
| QueueTrace.PollWaitInFigures | robot/http_assign_gate.go:144-171 | Over every legal trace: before each poll the client waited at least retry_after of the reply before, at least 2 s, and at most 1.2 times the larger of retry_after and 30 s. |
| QueueTrace.TokenlessWaitInFigures | robot/http_assign_gate.go:173-181 | A wait without a token is exactly retry_after of the reply before it, or 2 s when that is not positive. |
| QueueTrace.FloorInFigures | robot/http_assign_gate.go:157-168 | The least wait is 2, 2, 4, 8 and 16 s after none to four failed polls in a row, and 30 s from the fifth on. |
| QueueTrace.FailuresAreTrailing | robot/http_assign_gate.go:220-231 | The counter is the number of polls at the end of all polls that were not answered or answered by 500. |
| QueueTrace.RecoveryOnlyAfterFailure | robot/http_assign_gate.go:321-346 | A request directly behind a poll carries the same token if the poll failed, and else follows a 410 without a token. |
| QueueTrace.TokenToNextRequest | robot/http_assign_gate.go:258-310 | From one request to the next a held token is dropped if and only if the reply in between was a 410, and it changes only to the token of a queued login reply. |
| QueueTrace.FloorBounds | robot/http_assign_gate.go:145-155 | The least wait is always between 2 s and 30 s. |
| QueueTrace.FloorMonotone | robot/http_assign_gate.go:161-168 | More failures in a row never shorten the least wait. |
| MailCheck.CheckUnreadAfterRead | robot/mail_smoke_scenario.go:712-749 | Accepts exactly the counts the expectation allows: equal, or below it when a listing had several pages. |
| MailCheck.UnreadBalance | robot/mail_smoke_scenario.go:712-722 | The unread set of the second moment is the first without the read and the lapsed mails plus the gained ones, and the counts add up. |
| MailCheck.SinglePageIsExact | robot/mail_smoke_scenario.go:712-722 | Between two honest single-page listings the check accepts a count if and only if it is the true one. |
| MailCheck.RunIsJudgedExactly | robot/mail_smoke_scenario.go:712-749 | The same between any two moments of any run of server steps in which only the named mail is read, whatever arrives, expires, is claimed or swept, and in whatever order it sorts. |
| MailCheck.PagedNeverAlarms | robot/mail_smoke_scenario.go:721-744 | For two listings that show the first page of their moment and then old mail only, with at most one page of new mail, which sorts first, the true count is never refused. |
| MailCheck.TruthAcceptedIff | robot/mail_smoke_scenario.go:721-744 | Whatever two listings without repeats show, a true count is accepted over several pages if and only if the account covers: the mails shown expiring and the mails gained are together no more than the mails lapsed and the mails shown arriving. |
| MailRuns.ReadingIsPaged | robot/mail_smoke_scenario.go:683-710 | However the mailbox changes between its pages, a finished listing holds the first page of its first moment and then only mails of that moment, without repeats; it is complete when there was one page. |
| MailRuns.ReadingIsDistinct | robot/mail_smoke_scenario.go:683-710 | Over any run, in whatever order new mail sorts, a finished listing shows no mail twice and carries the numbers of its first page. |
| MailRuns.TrueCountAcceptedIff | robot/mail_smoke_scenario.go:683-749 | Over every run of the server in which only the named mail is read between the first pages, with each page served from the mailbox of its own moment: a true count is accepted over several pages if and only if the account covers. |
| MailRuns.HonestServerIsAccepted | robot/mail_smoke_scenario.go:683-749 | Over every run in which only the named mail is read, new mail sorts first and at most a page of it arrives, with each page served from the mailbox of its own moment: the account covers, the true count is accepted, and between single pages no other. |
| MailRuns.PageExtends | go/mail/internal/data/inbox.go:100-135 | A page behind the last mail gathered adds only mails that were there at the first page, older than all gathered, and its cursor is its last mail. |
| MailLateArrival.TrueCountIsRefused | robot/mail_smoke_scenario.go:717-722 | A run of an honest server with pages of 50 in which a mail of the same millisecond and a smaller id arrives behind the cursor: the true count is refused. |
| MailLateArrival.AccountDoesNotCover | robot/mail_smoke_scenario.go:717-722 | That run is one the exact condition speaks about, and its account does not cover. |
| MailCheck.NewMailOnFirstPage | robot/mail_smoke_scenario.go:717-720 | When new mail sorts first, at most one page of it is all on the first page. |
| MailCheck.LaterPageShowsOldMail | go/mail/internal/data/inbox.go:105-120 | When new mail sorts first, a mail behind a cursor was there before, with its bits unchanged but for the mail read. |
| MailCheck.ExpiredIsCardinality | robot/mail_smoke_scenario.go:724-734 | The loop counts each expired mail once. |
| MailCheck.ArrivedIsCardinality | robot/mail_smoke_scenario.go:735-740 | The loop counts each arrived mail once. |
| Mailbox.RunFollows | go/mail/internal/data/inbox.go:80-120 | Between any two moments of a run of server steps that read only the named mail, expiry and sending times stay, read bits only of that mail change and nothing vanishes before its time. |
| Mailbox.StepKeepsClaimsRead | go/mail/internal/data/claim.go:70 | Starting a claim marks the mail read, so every mail that outlives its expiry is read. |
| Mailbox.ReadIsKept | go/mail/internal/data/inbox.go:80-100 | A mail that was read stays read as long as it is there. |
| MailServer.RowsUnique | go/mail/internal/data/inbox.go:98-121 | The query has one answer: two listings of a mailbox behind a cursor are equal. |
| MailServer.RowsBehind | go/mail/internal/data/inbox.go:101-121 | Behind a mail of the whole order stand exactly the mails after it. |
| MailPages.ListAll | robot/mail_smoke_scenario.go:683-710 | The cursor loop ends after the last page or after ten, at a refusal or at a cursor that does not descend, with the concatenated pages and the first page's numbers. |
| MailPages.EndIsUnique | robot/mail_smoke_scenario.go:683-710 | Where and how the collection ends is determined by the answers. |
| MailPages.HonestWalks | go/mail/internal/data/inbox.go:98-135 | A server that follows its own cursors over a mailbox at rest walks down its order, fifty mails a page. |
| MailPages.SticksIff | robot/mail_smoke_scenario.go:703-706 | Against that server the loop gives up at page n if and only if that is the first page whose last mail carries a larger id than the last mail of the page before, with more mails to come. |
| MailPages.ReadsWholeOrder | robot/mail_smoke_scenario.go:683-710 | It ends with a listing if and only if no id rises so, and then returns the mailbox in its order, up to 500 mails, with the true count. |
| MailPages.RisingMailboxIsRefused | robot/mail_smoke_scenario.go:703-706 | A mailbox of 101 mails, all sent and none expired, whose honest pages the client refuses at the second. |
| Refresh.RefreshWithinGrace | robot/login.go:306-341 | All attempts use one token, number at most three, honour their timeouts and follow the timer of a backoff of 1 s and 2 s behind an unanswered attempt, unless the session ends during it; the reply is the last answer, and no attempt is left out. |
| Refresh.AttemptsInFigures | robot/login.go:302-341 | At most three attempts of at most 5 s with the one token, the second and third at least 1 s and 2 s behind the end of the one before; no answer later than 15 s is taken. |
| Refresh.InsideBudget | robot/login.go:302-341 | Whatever the timers do, an attempt that begins inside the 15 s budget ends inside it, and one that begins later is over at once and unanswered. |
| Refresh.BeginsLateIff | robot/login.go:325-338 | An attempt begins after the budget if and only if its timer fired late by at least the budget left behind the backoff. |
| Refresh.LateTimerBeginsAfterBudget | robot/login.go:328-338 | A timer 14 s late, after which the second attempt begins as the budget ends. |
| Refresh.Refresher.Tick | robot/login.go:239-297 | A tick sends the held token exactly when due (600 s before expiry, 60 s after the last send, not in flight) and changes the tokens only by what it sends: an HTTP refresh stores what its concluded reply brings, a legacy send changes none. Every tick keeps: no token whose HTTP outcome was rejected, unknown or a rotation, and none sent successfully on the legacy path, is ever sent again; sends are 60 s apart. |
| Refresh.TokensComeTogether | robot/login.go:273-285 | After an HTTP refresh access token and expiry are both from one successful reply that brought a token, or both as before; without a success the sent refresh token is gone. |
| Refresh.PromptSuccessIsStored | robot/login.go:265-285 | A success within 5 s that brings both tokens is exactly what the session holds afterwards. |
| Refresh.SentTwiceIff | robot/login.go:273-284 | Of two successive refreshes over HTTP the second sends the same token if and only if the first was answered by a success without a new token and no other token came meanwhile. |
| Refresh.ResendAfterKeptToken | robot/login.go:273-284 | Two ticks a minute apart that send one token, because the first reply brought none. |
| Refresh.Refresher.SendHttp | robot/login.go:265-285 | One refresh over HTTP: one log entry with the verdict of a concluded series of attempts, and the tokens and expiry that follow from it, also when another token took its place meanwhile. |
| Refresh.Refresher.SendLegacy | robot/login.go:286-297 | A token sent on the legacy path is remembered as in flight; a failed send leaves it usable. |
| Framing.Encode | robot/network_probe.go:243-262 | The appending encoder yields length, name length, name with terminator, body and Adler-32 of all but the length. |
| Framing.ReadFrame | robot/network_probe.go:273-300 | Reader and decoder agree with the declarative reading of the stream: bounds, then the name looked up, then the body decoded, and the checksum compared last; no slice leaves the frame. |
| Framing.FrameReadsBack | robot/network_probe.go:243-300 | A frame followed by anything reads back as its name and body with a matching checksum, leaving the rest, or as the decoder's refusal of that name or body. |
| Framing.StreamReadsBack | robot/network_probe.go:243-300 | A concatenation of frames of messages the decoder understands is split into exactly the same messages in order. |
| Framing.StreamInjective | robot/network_probe.go:243-262 | Different conversations have different encodings. |
| Framing.AcceptedIffFits | robot/network_probe.go:279-291 | The reader takes an encoded message if and only if its name is not empty, name, terminator and body are at most 65528 bytes, the name is known and the body decodes. |
| Framing.FrameOnBytes | robot/network_probe.go:243-262 | A frame byte by byte: length of what follows, name length with terminator, name, zero, body, and the checksum of all between length and checksum, words big-endian. |
| Framing.WordIsBigEndian | robot/network_probe.go:243-262 | The first byte of a word is its most significant one. |
| Framing.ComputeAdler32 | robot/network_probe.go:261 | The running two-sum loop is the checksum of section 2.2 of RFC 1950. |
| Framing.Adler32InClosedForm | robot/network_probe.go:261 | The high half is the length plus the byte sum weighted by distance from the end, the low half 1 plus the byte sum, both modulo 65521. |
| Framing.LowSumIsSum | robot/network_probe.go:261 | The low half of the checksum is 1 plus the sum of the bytes modulo 65521. |
| Framing.ByteChangeIsSeen | robot/network_probe.go:243-246 | Any change of one byte changes the checksum. |
| Framing.HandedOnIff | robot/vendor/github.com/luyuancpp/muduoclient/muduo/codec.go:76-103 | Whatever payload and checksum field hold, a frame is handed on if and only if its name length fits, its name is known and its body decodes; the checksum has no part in it. |
| Framing.DamageIsSeenNotRefused | robot/vendor/github.com/luyuancpp/muduoclient/muduo/codec.go:76-103 | One damaged byte of name length, name or body never matches the checksum, and the frame is handed on all the same if and only if what the damaged bytes spell fits, is known and decodes. |
| Framing.DamagedBodyIsHandedOn | robot/vendor/github.com/luyuancpp/muduoclient/muduo/codec.go:76-103 | One damaged body byte under a known name: another message is handed on. |
| ProbeCache.RunProbe | robot/network_probe.go:142-187 | A probe succeeds if and only if the plan is usable, every target answers, the commit is good and expires after every measurement; every failure has its one cause, the first in the order of the calls, if and only if. Receipts are committed exactly when every target was sampled, all in plan order; the result carries the latest measuring time, the expiry and each region's last round trip. |
| ProbeCache.OneOutcome | robot/network_probe.go:142-187 | The causes of failure exclude each other and success, so each is both needed for its error and enough for it. |
| ProbeCache.DeadlineIsConservative | robot/network_probe.go:183-185 | For every uint64 expiry the deadline is at most started + validity - 40 s: where the 64-bit arithmetic wraps it wraps downwards; it is exact while the validity is below 2^63 ns. |
| ProbeCache.HitIsLastProbe | robot/network_probe.go:329-335 | Over every order of the cache's critical sections a hit returns the plan of the player's last successful probe, to the session of that probe only, before its deadline. |
| ProbeCache.HitLeavesMargin | robot/network_probe.go:337-349 | A hit leaves more than 40 s before the true expiry when the last sample was measured after the probe began by at least the fraction its stamp cut off, and never 1 ms less; a validity of 40 s or less is never reused. |
| ProbeCache.MarginKeptIff | robot/network_probe.go:183-185 | Below 2^63 ns of validity a stored probe keeps the margin at every instant it can be hit if and only if it is valid for 40 s or less, so that it never is, or its last sample was measured after the probe began by at least the fraction its stamp cut off. |
| ProbeCache.MarginMayFallShort | robot/network_probe.go:337-349 | A probe whose last sample is measured 500 000 ns after its beginning, with 999 999 ns cut off by the stamp, and a hit that leaves less than 40 s. |
| ProbeCache.EntryIsLastStored | robot/network_probe.go:344-350 | An entry is what the player's last store left. |
| ProbeCache.Cache.Lookup | robot/network_probe.go:330-336 | Finds a plan exactly when session and deadline allow it, and changes no entry. |
| ProbeCache.Cache.Store | robot/network_probe.go:343-349 | Replaces the player's entry and no other. |
| ProbeCache.Cache.Ensure | robot/network_probe.go:329-351 | A usable entry is returned without probing; else there is an answer if and only if the probe succeeds, which is then stored, and a failed one gives its own cause and changes nothing. |
| Robot.RunRobot | robot/main.go:357-420 | The loop terminates; each cycle waits and gets its token by the rule; it gives up on retries exactly after five failures and on expiry exactly after 21 expired gate tokens, stops early only for a played session or the stop signal, and runs no cycle after a stop signal. |
| Robot.AtMost25Cycles | robot/main.go:358-417 | Although expiry decrements the counter, no run has more than 25 cycles. |
| Robot.CyclesAreCounted | robot/main.go:376-417 | Every cycle but a final played one is a failure or an expiry. |
| Robot.ExpiryBackoff | robot/main.go:383-417 | After an expired gate token the next cycle waits 200 ms if and only if some earlier cycle had failed otherwise; before that it follows at once. |
| Robot.FailureBackoff | robot/main.go:383-417 | Behind any other failure the next cycle waits twice as long as the failed one had waited; had it not waited, 3 s, or 200 ms when a token had expired by then. |
| Robot.ExpiryWithoutPause | robot/main.go:383-417 | Two expired gate tokens at the start are two cycles without a pause. |
| Robot.WaitsInRange | robot/main.go:366-391 | Every wait is between 200 ms and 24 s: the 30 s cap never takes effect. |
| Robot.TokenIsNewest | robot/main.go:370-394 | Every cycle is given the newest access token any earlier cycle obtained; no failure in between loses it. |
| Channels.CheckDirectory | robot/channel_smoke_scenario.go:711-765 | Accepts exactly the sound pushes: zone and map as wanted, strictly ascending numbers from 1, distinct non-zero scenes, exactly one current line, switching enabled, scene_info in agreement. |
| Channels.SoundOnFields | robot/channel_smoke_scenario.go:711-765 | The sound pushes, field by field, if and only if. |
| Channels.CheckLines | robot/channel_smoke_scenario.go:731-754 | One pass comparing neighbours only decides the pairwise property; an error names the first defective line after an orderly beginning. |
| Channels.CurrentLine | robot/channel_smoke_scenario.go:751-754 | With distinct scenes "a current line" and "exactly one current line" coincide. |
| Channels.CheckNosStable | robot/channel_smoke_scenario.go:767-787 | For any two directories: accepts exactly when no line of the second has another number in the first, counting the shared lines; else counts up to the first renumbered one. |
| Channels.SharedIsIntersection | robot/channel_smoke_scenario.go:767-787 | The reported count is the size of the intersection of the scene sets. |
| Channels.StableMeaning | robot/channel_smoke_scenario.go:767-787 | Stable means: the same scene has the same number in both. |
| Channels.StableIsSymmetric | robot/channel_smoke_scenario.go:767-787 | Verdict and count do not depend on which directory came first. |
| Channels.SharedLinesKeepOrder | robot/channel_smoke_scenario.go:767-787 | Two sound and stable directories list their shared lines in the same order. |
| Channels.PickTarget | robot/channel_smoke_scenario.go:789-803 | The first selectable line other than the current one - not full, closing, unavailable or of unknown state - which in an orderly directory has the least number; none exactly when there is none. |

## Left out

- Network, HTTP, JSON and protobuf encoding, the message registry behind the frame decoder, logging, and the error texts: results and error kinds only.
- The scripted smoke scenarios, their sleeps, session opening, GM grants and tip texts: linear scripts without an algorithm.
- checkEquipForgeRestored, checkEquipForgeNoEmptyStacks, checkEquipForgeGemItem, equipForgePickTarget, equipForgeShortfall, checkEquipItemDisplay, checkEquipPanelShape and checkEquipGain: single-pass field checks that would only add easy members.
- Nil elements of repeated fields and unknown protobuf fields: a message is the value of its known fields. Fields of an attribute panel that no comparison reads are not part of the panel.
- Repeated fields of 2^31 entries or more, which the wire format cannot carry.
- Bags.BagsEqual: sorts cloned values instead of slices in place; sorting is modelled by an insertion sort of which callers use only "sorted permutation".
- Bags.CountsDiff: yields the differing configs, not the formatted lines.
- QueueClient.HeldTokenWait: retry_after_ms is taken within 4 * 10^11 ms in absolute value, outside of which the Go duration arithmetic overflows.
- QueueClient.Client.Run: the context is a deadline; cancellation before it, the zone id and the measured waiting time of the statistics are not modelled.
- QueueClient.Client.Sleep: when timer and deadline fall together the model takes the deadline, as the second look at the context makes the code do.
- Mailbox.RunFollows: mails deleted by the player, campaign mail and guild visibility are not modelled, and server ids are taken never to be 0 and never to be handed out twice.
- Refresh.Refresher.Tick: a token that arrives from the server is taken to be one that was never sent before; expiry of refresh tokens themselves and the counters are not modelled, and a concurrent change of the token is one arbitrary swap while the HTTP call is under way.
- Framing.ReadFrame: the connection is the sequence of bytes it will deliver; the message registry and the body decoder are two arbitrary predicates.
- Framing.DamageIsSeenNotRefused: one damaged byte behind the length word; damage to the length word, which moves the frame's end, and damage to several bytes, which may cancel out in the checksum, are not covered. Framing.HandedOnIff covers every payload and checksum field.
- Framing.FrameOnBytes: stated below 4 GiB, where the 32-bit length word wraps.
- Framing.AcceptedIffFits: stated below 4 GiB, where the 32-bit length word wraps.
- ProbeCache.RunProbe: dialling, echoing and signature bytes of one target are one arbitrary answer.
- ProbeCache.Cache.Ensure: runs its two critical sections without other callers in between; ProbeCache.HitIsLastProbe covers every order of critical sections, and Lookup and Store keep the log legal from any state.
- ProbeCache.MarginKeptIff: stated below 2^63 ns of validity; beyond it ProbeCache.DeadlineIsConservative keeps the one direction.
- Robot.RunRobot: one cycle is an arbitrary session outcome; the counters of the metrics are not modelled.
- The C++ and Java services, apart from the mail server's listing, claim and sweep statements that the unread account relies on.
