# metaforiq-node library watcher, modelled in Dafny

The service watches the Washington County Cooperative Library Services (WCCLS)
catalogue for Blu-ray titles. Its state lives in lowdb JSON documents with two
lists. The first is `libraryItems`, the known titles of two kinds: "available
now" and "on order". The second is `wishListItems`, plain title phrases. The
handlers open three documents (see "Left out"); the model gives them one shared
store. Each sync
cycle reads a search page, merges its bibs into the store and purges stale
records. Then one of two things happens:

- "available now": it probes each title's copies per branch and debounces an
  alert per branch with `NOTIFY_DELAY`;
- "on order": it stamps on-order titles that were never announced.

Either way it sends one aggregated Discord alert.

This project models three files:

- `wcclsHandler.js` `refreshItems` is the current cycle (module `Wccls`, proofs in `WcclsProps`).
- `scrape.js` `scrapeItems` is the older cycle (module `Scrape`, proofs in `ScrapeProps`).
- `wishlistHandler.js` covers adding and removing wish-list phrases (module `WishList`).

The shared vocabulary is in `Catalog`:

- the item records and the store;
- `find`/`findIndex` by id and the branch table lookup;
- the per-branch debounce `StampBranch`;
- the on-order stamping;
- the alert text.

`Text` holds the string helpers (`toLowerCase` on ASCII, `includes`,
`startsWith`, `endsWith`, `join`). `Seqs` holds `Array.prototype.filter`.

The store is a `class Store` with `seq` fields. Each handler is a method that
updates the store in place. Each method's `ensures` ties the new store and the
result to a specification function of the old store: `RefreshCycle`,
`ScrapeCycle`, `Remove`, `StampOnOrder` and so on. The lemmas state what the
source promises about those functions.

Each cycle's inputs are:

- the fetched page, as `PageData` (`Unparsable` when the fetch or `JSON.parse` throws);
- the availability endpoint, as a function `Probe` from bib id to the copies (`None` when the fetch or parse throws);
- the current instant `nowMs`;
- the `NOTIFY_DELAY` value `delay`.

The Discord message is an output: `Some(text)` when an alert is sent.

Some of what the proofs show:

- **Duplicate ids in `refreshItems`.** The current cycle can store one id twice.
  An item of the other type is kept by the type partition (lines 99-101). It is
  also re-added, overlaid with the refreshed title, when the page lists its id
  (lines 105-115). See `WcclsProps.CrossTypeIdDuplicated`.
- **No duplicates without cross-type ids.** Ids stay unique when three things
  hold: the store had no repeated id, the page lists no id twice, and no fresh
  item of the other type shares an id with the page
  (`WcclsProps.UniqueWithoutCrossTypeIds`). A page that repeats an id gets that
  id stored twice, since each bib yields its own record.
- **The older cycle never duplicates.** Its insert-or-touch merge never stores an
  id twice (`ScrapeProps.ScrapeKeepsUniqueIds`).
- **On-order write-back can overwrite a twin.** It writes each on-order title at
  the first index holding its id. That slot can be the available-now twin, which
  is then replaced (`WcclsProps.OnOrderWriteBackReplacesTwin`).
- **Debounce.** It is exact to the second (`Catalog.DebounceWindow`). Repeating a
  pass at the same instant is silent (`WcclsProps.RepeatPassIsSilent`,
  `ScrapeProps.RepeatProbeIsSilent`).
- **On-order titles are announced once, on a stable page.** The current cycle
  rebuilds the on-order partition from the page alone (lines 99-116). A title
  missing from one page loses its record and its notify date, and it is
  announced again when it comes back. `WcclsProps.OnOrderSingleFire` therefore
  assumes two things. The second cycle runs within 30 days of the first, and
  every id on its page was on the first page. The older cycle keeps stored
  titles across pages. `ScrapeProps.ScrapeOnOrderSingleFire` needs the same page
  condition, at any later time.
- **Every stale copy alerts.** In both cycles a copy check fires exactly when
  the branch is in the table, the id is stored and the branch entry is stale
  (`WcclsProps.AvailabilityStepFires`, `ScrapeProps.CopyStepFires`). Every such
  copy gets its title pushed (`WcclsProps.PassPushesStale`,
  `ScrapeProps.ProbePassPushesStale`). The current cycle adds one block per push
  whose title matches the wish list (`WcclsProps.PassBlocksPerWishPush`). The
  older cycle adds one block per push (`ScrapeProps.ProbePassBlockPerPush`).

## Model

| member | source | states |
|---|---|---|
| Catalog.IndexOfId | wcclsHandler.js:135-137 | `find`/`findIndex` by id: the result is the first index whose item has the id, and `None` exactly when no item has it |
| Catalog.SameIdsSameIndex | wcclsHandler.js:168-170 | two stores with the same ids slot by slot give the same `findIndex` answer for every id |
| Catalog.FindLocation | wcclsHandler.js:130-133 | the location found is in the table and carries the copy's branch name; `None` exactly when no table entry has that name |
| Catalog.StampBranch | wcclsHandler.js:139-152 | characterises `DelayExceeded`: it fires exactly when the branch entry is missing, has a falsy date, or its date in ms is before now minus the delay. Firing creates or overwrites only that branch's entry, with the current second and the branch name. Other entries and the item's other fields are unchanged; no change when it does not fire |
| Catalog.RefireIff | wcclsHandler.js:144-151 | characterises `DelayExceeded`: after a stamp at `nowMs`, a later check fires iff the stamp is 0 or the stamped second times 1000 is before the later instant minus the delay |
| Catalog.DebounceWindow | wcclsHandler.js:144-151 | characterises `DelayExceeded`: after a stamp, a check less than the delay later (allowing the truncated sub-second) stays silent, and one more than the delay later fires again |
| Catalog.StampKeepsSettled | wcclsHandler.js:139-152 | at a single instant, stamping any item for any branch leaves every already-silent check silent |
| Catalog.StampSettlesOwn | wcclsHandler.js:139-152 | at a single instant, a check that just stamped an item is silent when repeated |
| Catalog.AlertedItems | wcclsHandler.js:153 | the returned list has one entry per fired check, in firing order: entry k is the final-store item at the k-th pushed slot |
| Catalog.StampOnOrder | wcclsHandler.js:184-187 | only on-order items without a truthy notify date change, and only in their notify date, which becomes now. Items with a date keep it, and afterwards no item is still awaiting an alert |
| Catalog.OnOrderBlocks | scrape.js:167-171 | no more blocks than items, and no block exactly when no on-order item lacks a notify date |
| Catalog.OnOrderBlocksPerAwaiting | scrape.js:166-171 | one `title\nurl` block per on-order item still lacking a notify date, in store order: block k names the k-th such item |
| Catalog.AwaitingIsAnnounced | wcclsHandler.js:184-187 | every on-order item without a truthy notify date has its block in the alert |
| Catalog.OnOrderBlocksFromAwaiting | scrape.js:167-171 | every on-order block is `title\nurl` of a stored on-order item without a notify date |
| Catalog.RestampIsSilent | wcclsHandler.js:184-187 | after stamping with a non-zero second, the on-order pass finds nothing to announce |
| Catalog.AlertMessage | wcclsHandler.js:203-205 | a message exists exactly when there is at least one block, and it starts with `<type> alert!!!\n` |
| Catalog.AlertMessageCarriesBlocks | wcclsHandler.js:203-205 | every block appears in the sent message |
| Catalog.FilterKeepsUniqueIds | wcclsHandler.js:94-101 | filtering a store without repeated ids cannot create a repeat |
| Catalog.FirstWithIdSurvivesFilter | scrape.js:79 | if the first item with an id passes a filter, it is still the first item with that id afterwards |
| Catalog.Store.constructor | wcclsHandler.js:90-91 | the document holds the given item list and wish list |
| Catalog.StampUnnotifiedOnOrder | scrape.js:166-174 | the loop stamps exactly as `StampOnOrder` and collects the blocks of `OnOrderBlocks`, taken before stamping; the wish list is unchanged |
| Catalog.StampAwaiting | scrape.js:166-174 | walking the items once, the stamped list equals `StampOnOrder` and the collected blocks equal `OnOrderBlocks` of the unstamped list |
| WishList.FirstMatch | wishlistHandler.js:40-42 | the index is the first entry equal to the title ignoring case, and `None` exactly when no entry matches |
| WishList.FindIndex | wishlistHandler.js:40-42 | the left-to-right scan returns that first case-insensitive match, or -1 exactly when there is none |
| WishList.AddWishListItem | wishlistHandler.js:23-33 | the title is appended with no duplicate check, the items are untouched, and the response is the whole new list |
| WishList.RemoveWishListItem | wishlistHandler.js:35-60 | the new list and the response are those of `Remove` on the old list; the library items are untouched |
| WishList.RemoveSpec | wishlistHandler.js:40-58 | characterises `Remove`: without a match, the list is unchanged and the answer is a 404. With a match, exactly the first match is spliced out, the entries around it keep their order, and the answer is the new list |
| WishList.RemoveKeepsLaterDuplicates | wishlistHandler.js:40-54 | a later case-insensitive duplicate survives, shifted down one, and a second removal still finds a match |
| WishList.NotFoundListsEntries | wishlistHandler.js:43-52 | the 404 body contains every current wish-list entry |
| WishList.AddThenRemoveRestores | wishlistHandler.js:23-60 | adding a phrase with no case-insensitive equal and then removing it gives back the original list |
| WishList.RemoveMissingScenario | wishlistHandler.js:43-52 | removing "ghost" from ["dune"] leaves the list unchanged and answers 404 with a body naming "dune" |
| Wccls.RefreshedTitles | wcclsHandler.js:35-56 | one record per bib, in order, with the bib's id, title, record URL and large jacket, typed `config.type` and updated now |
| Wccls.RefreshTitles | wcclsHandler.js:35-56 | the push loop builds exactly `RefreshedTitles` |
| Wccls.Purge | wcclsHandler.js:94-97 | an item survives exactly when its `updateDate` is strictly later than 30 days before now, whatever its type |
| Wccls.PurgeKeepsOrder | wcclsHandler.js:94-97 | the purge distributes over concatenation, so survivors keep their order |
| Wccls.Reconcile | wcclsHandler.js:105-115 | every field a refreshed title carries comes from the title. Creation date, notify date and availability come from the first stored item with the id, of either type, or are now, none and empty |
| Wccls.MergeTitles | wcclsHandler.js:99-116 | the rebuilt store holds the other-type items first, each a stored item not of the cycle's type. One record per refreshed title follows, in title order, carrying that title's id, type and update date |
| Wccls.ProbedCopiesSound | wcclsHandler.js:58-84 | characterises `ProbedCopies`: every collected copy has status "AVAILABLE" and was reported by the successful probe of a title carrying the id it is tagged with |
| Wccls.ProbedCopiesComplete | wcclsHandler.js:64-76 | characterises `ProbedCopies`: every "AVAILABLE" copy that a successful probe reports is collected, tagged with the title's id |
| Wccls.ProbedCopiesAppend | wcclsHandler.js:62-80 | characterises `ProbedCopies`: the copies of earlier titles come before those of later titles; a title whose probe throws adds nothing |
| Wccls.GetAvailableBibItems | wcclsHandler.js:58-84 | the loop collects exactly `ProbedCopies`, the copies the three lemmas above characterise |
| Wccls.AvailabilityPass | wcclsHandler.js:129-175 | the pass over available copies keeps the ids slot by slot and keeps pushed indices within the store |
| Wccls.NotifyAvailable | wcclsHandler.js:129-175 | the `forEach` leaves the store, pushed items and blocks of `AvailabilityPass` on the old store; the wish list is unchanged |
| Wccls.WriteBack | wcclsHandler.js:190-198 | writing titles back at the first index of their id keeps the ids slot by slot |
| Wccls.WriteBackTitles | wcclsHandler.js:190-198 | the loop leaves the store of `WriteBack` |
| Wccls.RefreshCycle | wcclsHandler.js:86-214 | the call fails exactly on an unparsable page, and then the store is untouched. Otherwise the final store keeps the rebuilt store's ids slot by slot. An on-order cycle alerts exactly when some rebuilt on-order item lacks a notify date. The items an available-now cycle returns are in the final store |
| Wccls.RefreshItems | wcclsHandler.js:86-214 | the store and the outcome are those of `RefreshCycle` on the old store. The wish list is never changed. An unparsable page leaves the store unchanged and the call resolves to nothing |
| WcclsProps.MergedSize | wcclsHandler.js:103-116 | the rebuilt store has as many entries as surviving other-type items plus bibs |
| WcclsProps.MergedEntry | wcclsHandler.js:103-116 | each slot is a surviving other-type item, or the reconciliation of its bib with the bib's id, the cycle's type and an update date of now |
| WcclsProps.MergeOtherAt | wcclsHandler.js:99-105 | the rebuilt list opens with the stored items not of the cycle's type, in their stored order |
| WcclsProps.MergeTitleAt | wcclsHandler.js:106-116 | past those items, slot `j` is the reconciliation, against the stored list, of the refreshed title whose position is `j` minus the number of those items |
| WcclsProps.BibSlot | wcclsHandler.js:86-116 | the record for page bib `k` sits right after the other-type survivors and `k` earlier records, with the bib's id and the cycle's type |
| WcclsProps.PageFollowsOthers | wcclsHandler.js:86-116 | every page bib has its record, in page order, after the other-type survivors |
| WcclsProps.RefreshedSlotsFromPage | wcclsHandler.js:86-116 | every slot of the cycle's type in the rebuilt store carries the id of a bib on the page and an update date of now |
| WcclsProps.RebuiltFromPage | wcclsHandler.js:103-116 | every item of the cycle's type comes from a bib on the page and was updated now; bib k sits at position (others + k) |
| WcclsProps.OtherTypeKept | wcclsHandler.js:94-104 | the other-type items kept are exactly the stored ones that survive the 30-day purge |
| WcclsProps.CrossTypeIdDuplicated | wcclsHandler.js:99-115 | a fresh other-type item whose id is on the page makes the rebuilt store hold that id twice |
| WcclsProps.UniqueWithoutCrossTypeIds | wcclsHandler.js:99-115 | a store with unique ids stays unique when the page ids are distinct and none belongs to a fresh (unpurged) other-type item; stale other-type items may share page ids |
| WcclsProps.StampedOnlyAtTrans | wcclsHandler.js:139-166 | "changed only at table branches" composes across steps |
| WcclsProps.StepOnlyStampsTableBranches | wcclsHandler.js:130-166 | one copy check changes only availability entries of a branch in the table |
| WcclsProps.PassOnlyStampsTableBranches | wcclsHandler.js:129-175 | the whole pass changes no item field but availability, and only entries of branches in the table |
| WcclsProps.StampsIgnoreWishList | wcclsHandler.js:149-163 | the stamps and the pushed items do not depend on the wish list |
| WcclsProps.AvailabilityStepFires | wcclsHandler.js:130-174 | characterises `AvailabilityStep`: a copy check fires exactly when its branch is in the table, a stored item has its id and that item's branch entry is missing, zero or older than the delay. Then that item's entry becomes now and the branch name, and the slot is pushed. A block naming its title, the branch and its url is added exactly when the title matches the wish list. Otherwise nothing changes |
| WcclsProps.StepPushesOrKeeps | wcclsHandler.js:130-174 | characterises `AvailabilityStep`: one check keeps every id in place, and either pushes a given slot or leaves it as it was |
| WcclsProps.PassExtends | wcclsHandler.js:129-175 | the pass only appends to the pushed slots and to the blocks |
| WcclsProps.PassPushesStale | wcclsHandler.js:129-175 | every copy at a table branch whose stored title's entry for that branch is stale when the pass starts gets that title pushed |
| WcclsProps.StepKeepsHeadings | wcclsHandler.js:130-174 | a copy check never changes a title or a url |
| WcclsProps.StepBlocks | wcclsHandler.js:148-163 | one check adds a block exactly when it pushes a slot whose title matches the wish list, naming that slot's title, url and branch |
| WcclsProps.PassBlocksPerWishPush | wcclsHandler.js:129-175 | the blocks are one per pushed slot whose title matches the wish list, in push order. Each names that slot's title and url and a table branch; titles and urls are unchanged |
| WcclsProps.BlocksNeedWishMatch | wcclsHandler.js:155-163 | blocks are only appended. Each names a stored title matching the wish list, with its url and a table branch. An empty wish list adds none |
| WcclsProps.WishedCopyAlerts | wcclsHandler.js:129-175 | a never-announced "Dune" with one available Tigard copy and the wish phrase "dune" is pushed once, stamped at Tigard, and gives one block and a message |
| WcclsProps.SettledStepIsSilent | wcclsHandler.js:143-149 | a copy check whose delay is not exceeded changes nothing |
| WcclsProps.StepSettles | wcclsHandler.js:139-152 | at one instant a step keeps a silent check silent |
| WcclsProps.StepSettlesOwn | wcclsHandler.js:139-152 | at one instant a step makes its own check silent |
| WcclsProps.PassKeepsSettled | wcclsHandler.js:129-175 | at one instant a pass keeps a silent check silent |
| WcclsProps.PassSettlesAll | wcclsHandler.js:129-175 | after a pass at one instant, every check it made is silent |
| WcclsProps.SettledPassIsSilent | wcclsHandler.js:129-175 | a pass whose checks are all silent leaves the state unchanged |
| WcclsProps.RepeatPassIsSilent | wcclsHandler.js:143-152 | at one instant (past the first second, sub-second part within the delay), repeating the pass over the same copies changes nothing and alerts nothing |
| WcclsProps.WriteOneSameIds | wcclsHandler.js:191-197 | one write-back keeps the ids slot by slot |
| WcclsProps.WriteBackUnchangedSlot | wcclsHandler.js:190-198 | a slot whose id no title carries is left alone |
| WcclsProps.WriteBackFrom | wcclsHandler.js:190-198 | every slot afterwards holds its old item or one of the titles |
| WcclsProps.WriteBackFirstSlot | wcclsHandler.js:190-198 | the first slot holding a title's id ends up holding one of the titles |
| WcclsProps.WriteBackIdentityWhenUnique | wcclsHandler.js:190-198 | on a store with unique ids, writing back its own items changes nothing |
| WcclsProps.OnOrderTitlesNotified | wcclsHandler.js:181-187 | after an on-order cycle past the first second, every returned title is on order, notified and updated now |
| WcclsProps.OnOrderFirstSlot | wcclsHandler.js:190-198 | after the write-back, the first slot holding a page id holds one of the returned on-order titles |
| WcclsProps.BibTitle | wcclsHandler.js:179-182 | every bib of the on-order page has a returned on-order title with its id, and that id is in the stamped store |
| WcclsProps.SecondCycleEntryQuiet | wcclsHandler.js:94-116 | in a second on-order cycle within 30 days, on a page with no new id, no item of the rebuilt store awaits an alert |
| WcclsProps.FirstCycleAnnounced | wcclsHandler.js:179-198 | after an on-order cycle, the first slot holding the id of any bib of its page is notified and carries that cycle's update date |
| WcclsProps.PurgedFirstSlot | wcclsHandler.js:94-97 | the first item holding an id, when it is fresh enough to survive the 30-day purge, is still the first item holding that id after it |
| WcclsProps.SecondCycleBibQuiet | wcclsHandler.js:94-116 | in a second on-order cycle within 30 days, the record rebuilt for a bib the first page listed inherits the first cycle's notify date, so it does not await an alert |
| WcclsProps.OnOrderSingleFire | wcclsHandler.js:180-187 | a second on-order cycle within 30 days of the first, on a page with no new id, completes and sends no alert |
| WcclsProps.OnOrderSlotOfBib | wcclsHandler.js:190-198 | on a store whose ids were unique before the cycle, any slot of the on-order store holding a page id holds an on-order record. Stores that `refreshItems` itself left with a repeated id are excluded (see `CrossTypeIdDuplicated`) |
| WcclsProps.KeptSlotIsFirst | wcclsHandler.js:99-101 | on a store with unique ids, a kept other-type slot is the first slot holding its id after the on-order stamping |
| WcclsProps.OnOrderWriteBackReplacesTwin | wcclsHandler.js:190-198 | a fresh available-now item sharing an id with the on-order page leaves that id twice in the store, and every slot holding it is on order: the available-now record is gone |
| Scrape.FilterItemsByType | scrape.js:25-27 | exactly the stored items of the given type, each one kept |
| Scrape.InsertOrTouch | scrape.js:55-77 | every stored slot keeps its id in place, and at most one record per bib is added |
| Scrape.MergeBibs | scrape.js:55-77 | the `for…in` loop leaves the store of `InsertOrTouch`, and the wish list is unchanged |
| Scrape.TouchOrInsert | scrape.js:57-76 | one turn of the loop: the first stored item with the bib's id gets a new update date, otherwise a new record for the bib is appended |
| ScrapeProps.FirstBibTouched | scrape.js:55-77 | after the whole loop, the first bib's id is stored and its first slot carries an update date of now |
| ScrapeProps.AppendedByLaterBib | scrape.js:55-77 | a slot appended after the first turn is the new record of a later bib whose id was not stored before the loop |
| ScrapeProps.AwaitingIsNew | scrape.js:55-77 | when no stored item was awaiting its on-order alert, any item awaiting one after the loop is the new record of a bib that was not stored |
| Scrape.Purge | scrape.js:79 | an item survives exactly when now minus its `updateDate` is at most 7 days, whatever its type |
| Scrape.WishListItems | scrape.js:89-93 | exactly the available-now items whose lower-cased title contains some lower-cased wish-list phrase |
| Scrape.CopiesPass | scrape.js:125-162 | the loop over one title's loanable copies keeps ids slot by slot and keeps pushed indices within the store |
| Scrape.ProbePass | scrape.js:99-164 | the probing of the wish-listed titles keeps ids slot by slot and keeps pushed indices valid, whether it finishes or aborts |
| Scrape.NotifyCopy | scrape.js:126-160 | one copy leaves the state of `CopyStep` |
| Scrape.NotifyCopies | scrape.js:125-162 | the copy loop leaves the state of `CopiesPass` |
| Scrape.NotifyWishListed | scrape.js:99-164 | the title loop leaves the state of `ProbePass`; it reports aborting exactly when the probe of some wish-listed title threw |
| Scrape.ProbePassAbortsIff | scrape.js:99-105 | characterises `ProbePass`'s outcome: it aborts exactly when the probe of some wish-listed title throws, since the per-title fetch and parse have no catch of their own |
| Scrape.ScrapeCycle | scrape.js:43-196 | an unparsable page leaves the store untouched and throws "Server Error - Check Logs", the only error message. Otherwise the final store keeps the merged store's ids slot by slot. An on-order scrape always returns; it alerts exactly when some merged on-order item lacks a notify date, and it returns on-order items of the final store |
| Scrape.ScrapeErrorIff | scrape.js:43-196 | an available-now scrape of a parsed page throws "Server Error - Check Logs" exactly when the probe of some wish-listed title of the merged store throws (lines 99-105 have no catch; lines 192-194 turn the throw into the error) |
| Scrape.ScrapeItems | scrape.js:43-196 | the store and the outcome are those of `ScrapeCycle` on the old store. The wish list is never changed. An unparsable page leaves the store unchanged and throws "Server Error - Check Logs" |
| ScrapeProps.InsertOrTouchOneShape | scrape.js:57-76 | one bib either touches the first item with its id to now or appends a new record, which happens only when the id is absent; afterwards that id's first item was updated now |
| ScrapeProps.InsertOrTouchPrefix | scrape.js:55-77 | every stored item stays in its slot, unchanged or with `updateDate` set to now |
| ScrapeProps.InsertOrTouchAppended | scrape.js:55-77 | every appended item is the new record (no image, created and updated now) of a page bib whose id was not stored |
| ScrapeProps.TouchedStays | scrape.js:55-77 | an id whose first item was touched keeps that first slot, touched, for the rest of the merge |
| ScrapeProps.InsertOrTouchTouchesAll | scrape.js:55-77 | after the merge, the first item holding each page id was updated now |
| ScrapeProps.InsertOrTouchOneKeepsUniqueIds | scrape.js:57-76 | one insert-or-touch keeps ids unique |
| ScrapeProps.InsertOrTouchKeepsUniqueIds | scrape.js:55-77 | the merge never stores an id twice, even when the page repeats an id |
| ScrapeProps.PageTitlesSurvivePurge | scrape.js:55-79 | every title on the page is stored after the 7-day purge, updated now |
| ScrapeProps.ScrapeKeepsUniqueIds | scrape.js:43-196 | a store without repeated ids keeps none after a whole `scrapeItems`, whatever the outcome |
| ScrapeProps.LoanableNarrowsAvailable | scrape.js:113-118 | characterises `IsLoanable`: every loanable copy is available, so the older cycle's test only narrows the newer one's |
| ScrapeProps.LoanableExclusions | scrape.js:113-118 | an available holdable copy and an available "4K" copy are both not loanable |
| ScrapeProps.LoanableCopiesSpec | scrape.js:103-118 | characterises `IsLoanable`: a probe fails exactly when the fetch or the parse throws. Otherwise the copies kept are exactly the reported loanable ones |
| ScrapeProps.CopiesPassBlocks | scrape.js:157-159 | blocks are only appended, and each names the probed title, its url and a table branch |
| ScrapeProps.ProbeBlocksNameWished | scrape.js:99-164 | every block the probing adds names a wish-listed title, with its url, and a table branch |
| ScrapeProps.CopyStepFires | scrape.js:126-160 | characterises `CopyStep`: a loanable copy fires exactly when its branch is in the table, a stored item has the title's id and its branch entry is missing, zero or older than the delay. Then the entry becomes now and the branch name, the slot is pushed, and one block names the probed title, the branch and the title's url. Otherwise nothing changes |
| ScrapeProps.CopyStepPushesOrKeeps | scrape.js:126-160 | characterises `CopyStep`: one copy keeps every id in place, only appends to the pushes, and either pushes a given slot or leaves it as it was |
| ScrapeProps.CopiesPassBlockPerPush | scrape.js:125-162 | the copy loop adds exactly one block per push |
| ScrapeProps.ProbePassBlockPerPush | scrape.js:99-164 | the probing adds exactly one block per push |
| ScrapeProps.CopiesPassExtends | scrape.js:125-162 | the copy loop only appends to the pushes |
| ScrapeProps.ProbePassExtends | scrape.js:99-164 | the probing only appends to the pushes |
| ScrapeProps.CopiesPassPushesOrKeeps | scrape.js:125-162 | the copy loop either pushes a given slot or leaves it as it was |
| ScrapeProps.CopiesPassPushesStale | scrape.js:125-162 | every loanable copy at a table branch whose entry for the stored title is stale when the loop starts gets that title pushed |
| ScrapeProps.ProbePassPushesStale | scrape.js:99-164 | when every probe up to a title succeeds, each of its loanable copies at a table branch with a stale entry gets the title pushed |
| ScrapeProps.LoanableCopyAlerts | scrape.js:99-164 | a wish-listed, never-announced "Dune" whose probe reports one loanable Tigard copy is pushed once with one block, and the probing finishes |
| ScrapeProps.CopiesPassAlerts | scrape.js:130-149 | the copy loop changes only availability maps, keeps earlier pushes, and every push is a slot holding the probed title's id |
| ScrapeProps.ProbePassAlerts | scrape.js:99-164 | the probing changes only availability maps, and every push is a slot holding the id of a wish-listed title |
| ScrapeProps.AlertedAreWished | scrape.js:130-149 | on a store with unique ids, every pushed slot holds one of the probed titles, differing at most in availability |
| ScrapeProps.PushedAreWishListed | scrape.js:149 | pushes drawn from wish-listed available-now titles resolve to wish-listed available-now items |
| ScrapeProps.ProbeReturnsWishListed | scrape.js:85-164 | on a store with unique ids, the pushed items are available-now items matching the wish list |
| ScrapeProps.ScrapeReturnsWishListed | scrape.js:189-191 | on a store with unique ids, an available-now scrape returns only available-now items whose title matches the wish list |
| ScrapeProps.EmptyWishListIsQuiet | scrape.js:88-95 | with an empty wish list, an available-now scrape probes nothing, stamps nothing, returns no item and sends no alert |
| ScrapeProps.SettledCopyIsSilent | scrape.js:139-148 | a copy whose delay is not exceeded changes nothing |
| ScrapeProps.CopyStepKeepsSettled | scrape.js:126-160 | at one instant a copy step keeps a silent check silent |
| ScrapeProps.CopyStepSettlesOwn | scrape.js:126-160 | at one instant a copy step makes its own check silent |
| ScrapeProps.CopiesPassKeepsSettled | scrape.js:125-162 | at one instant the copy loop keeps a silent check silent |
| ScrapeProps.CopiesPassSettlesAll | scrape.js:125-162 | after the copy loop, every copy it handled is silent |
| ScrapeProps.SettledCopiesAreSilent | scrape.js:125-162 | a copy loop whose checks are all silent changes nothing |
| ScrapeProps.ProbePassKeepsSettled | scrape.js:99-164 | at one instant the probing keeps a silent check silent |
| ScrapeProps.ProbePassSettlesAll | scrape.js:99-164 | a probing that finishes leaves every loanable copy of every wish-listed title silent |
| ScrapeProps.SettledProbeIsSilent | scrape.js:99-164 | a probing whose checks are all silent, with no failing probe, finishes with the state unchanged |
| ScrapeProps.FinishedProbedAll | scrape.js:103-105 | a probing that finishes met no throwing probe |
| ScrapeProps.RepeatProbeIsSilent | scrape.js:139-148 | at one instant (past the first second, sub-second part within the delay), probing the same titles again against the same availability finishes with nothing changed and no alert |
| ScrapeProps.OnOrderAlertsOnlyNewBibs | scrape.js:166-171 | once every stored on-order item is notified, each block of the next on-order scrape is `title\nurl` of a new record for a page bib whose id was not stored |
| ScrapeProps.SecondScrapeHasNoBlocks | scrape.js:166-171 | after a first on-order scrape, a second one on a page with no new id finds nothing to announce |
| ScrapeProps.ScrapeOnOrderSingleFire | scrape.js:166-174 | a second on-order scrape at any later time, on a page with no id the first page lacked, sends no alert |
| Seqs.Filter | wcclsHandler.js:94-101 | `filter` keeps exactly the elements that pass: each one kept is from the input and passes, and each passing one is kept |
| Seqs.FilterAppend | wcclsHandler.js:94-101 | filtering distributes over concatenation, so the survivors keep their relative order |
| Text.LowerSpec | wcclsHandler.js:155-158 | characterises `Lower`: `toLowerCase` keeps the length and maps each character on its own |
| Text.ContainsSpec | wcclsHandler.js:155-158 | characterises `Contains`: `includes` answers true exactly when the phrase occurs at some index |
| Text.JoinHasPart | wcclsHandler.js:203-205 | characterises `Join`: every part appears in the joined message |

## Left out

- Networking is left out: the page fetch, the availability requests and the Discord webhook. The parsed page, a probe function and the outgoing message text stand in for them.
- lowdb persistence is left out: `db.read` and `db.write`. Every write is an in-memory update of `Store`, and when it reaches disk is not modelled.
- The model assumes one shared document, but the handlers open three. `refreshItems` opens "/app/data/db.json" on each call (wcclsHandler.js:90). The wish-list routes open "/app/db.json" (wishlistHandler.js:18, 26, 38). `scrape.js` opens "db.json" once at module load and never re-reads it (scrape.js:18-19). Unless these resolve to one file, phrases added through the routes never reach `refreshItems`'s wish list. `scrapeItems` also works on the copy loaded at start-up, so it misses later edits by the other handlers.
- Logging is left out; it has no effect on the state.
- The routes and their glue are left out: `getItems`, the Express wiring in server.js, authHandler.js and libraryHandler.js. `getWishListItems` only reads the list; it is not modelled apart from the `Store` field.
- Locale-aware lower-casing is left out: `toLowerCase` is modelled on ASCII letters only (`Text.Lower`). Title matching and the wish-list comparisons can therefore differ on non-ASCII titles.
- Reading the clock is not modelled: every `Date.now()` within one cycle is the single instant `nowMs`, and seconds are `Math.floor(nowMs / 1000)`.
- `NOTIFY_DELAY` coercion is left out: it is taken as an integer number of ms (`delay`). An unset variable (`NaN`, so a stamped branch never fires again) is not modelled.
- Aliasing in `refreshItems` is left out. The kept other-type record and its overlaid twin share one `availability` object, and stamping one also changes the other. The model gives each record its own map, by value.
- `scrape.js` dictionary keys are assumed equal to the bib's own id: `scrapeItems` looks items up by the dictionary key (line 57-58) but stores `item.id` (line 64).
- Record shapes are assumed complete: every bib and copy is assumed to carry the fields the handlers read. A missing `briefInfo`, `jacket`, `branch` or `availability` field (a `TypeError`) is modelled only where the whole page fails to parse. A stored item without an `availability` object is the empty map.
- Unparsable pages: any failure before the merge (the fetch, `cheerio`, `JSON.parse`, a missing `entities`) is the single `Unparsable` page. `refreshItems` then resolves to `undefined` and `scrapeItems` throws "Server Error - Check Logs".
- Scrape.CopyStep: the case where no stored item has the probed title's id (a `TypeError` at scrape.js:133) cannot arise, because probed titles come from the store. The model skips the copy there.
- Wish-list phrases are strings. A POST whose body carries no string `title` pushes `undefined` (wishlistHandler.js:28), and the later `toLowerCase` calls then throw (wcclsHandler.js:157, scrape.js:91, wishlistHandler.js:41). The model's `seq<char>` entries exclude that case.
- Only the two configured item types are modelled. A configuration whose `type` is neither "available now" nor "on order" is not.
- The Discord send is not modelled as failing; it is fire-and-forget in the source.
- Interleaving of concurrent cycles is not modelled. server.js starts cycles from cron schedules, and two calls that overlap across their `await`s could interleave reads and writes of the store. Each handler call is modelled as one atomic update.
