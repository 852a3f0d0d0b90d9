/**
 * The older sync cycle, `scrapeItems` of scrape.js: insert-or-touch the page's
 * bibs into the store, drop items not updated for 7 days, then either probe the
 * availability of the wish-listed available-now titles and debounce alerts per
 * branch for their loanable copies, or stamp on-order items that were never
 * announced; finally compose one aggregated alert.
 *
 * The store is the module-level document, so changes made before a failure stay
 * in it; a failure anywhere ends the cycle with "Server Error - Check Logs".
 */
module Scrape {
  import opened Catalog
  import Seqs
  import Text

  /** The branch table of scrape.js: Beaverton City Library is commented out. */
  const SCRAPE_LOCATIONS: seq<Location> := [
    Location(29, "Tigard Public Library"),
    Location(31, "Tualatin Public Library"),
    Location(39, "Beaverton Murray Scholls")
  ]

  const RETENTION_DAYS := 7

  const SERVER_ERROR := "Server Error - Check Logs"

  /** What `scrapeItems` ends with: the error it throws, or the items it returns and the alert it sent. */
  datatype ScrapeOutcome = ServerError(message: string) | Returned(items: seq<LibraryItem>, notification: Option<string>)

  /** `filterItemsByType(type)` */
  function FilterItemsByType(items: seq<LibraryItem>, t: ItemType): (r: seq<LibraryItem>)
    ensures forall i :: 0 <= i < |r| ==> r[i] in items && r[i].itemType == t
    ensures forall i :: 0 <= i < |items| && items[i].itemType == t ==> items[i] in r
  {
    Seqs.Filter(items, OfType(t))
  }

  /** The record pushed for a bib whose id is not stored: created and updated now, no image, no notify date. */
  function NewItem(b: Bib, t: ItemType, nowSec: int): LibraryItem {
    LibraryItem(b.id, t, b.title,
      Details(b.subtitle, b.publicationDate, b.format, b.edition, b.description, None),
      RecordUrl(b.id), nowSec, nowSec, None, map[])
  }

  /** One turn of the merge loop: touch the first stored item with the bib's id, else append a new item. */
  function InsertOrTouchOne(items: seq<LibraryItem>, b: Bib, t: ItemType, nowSec: int): seq<LibraryItem> {
    match IndexOfId(items, b.id)
    case Some(i) => items[i := items[i].(updateDate := nowSec)]
    case None => items + [NewItem(b, t, nowSec)]
  }

  function InsertOrTouch(items: seq<LibraryItem>, bibs: seq<Bib>, t: ItemType, nowSec: int): (r: seq<LibraryItem>)
    ensures |items| <= |r| <= |items| + |bibs|
    ensures forall j :: 0 <= j < |items| ==> r[j].id == items[j].id
    decreases |bibs|
  {
    if bibs == [] then items else InsertOrTouch(InsertOrTouchOne(items, bibs[0], t, nowSec), bibs[1..], t, nowSec)
  }

  /** One turn of the merge loop keeps the rest of the merge on course. */
  lemma InsertOrTouchStep(cur: seq<LibraryItem>, next: seq<LibraryItem>, bibs: seq<Bib>, i: int, t: ItemType,
                          nowSec: int, items0: seq<LibraryItem>)
    requires 0 <= i < |bibs| && next == InsertOrTouchOne(cur, bibs[i], t, nowSec)
    requires InsertOrTouch(cur, bibs[i..], t, nowSec) == InsertOrTouch(items0, bibs, t, nowSec)
    ensures InsertOrTouch(next, bibs[i + 1..], t, nowSec) == InsertOrTouch(items0, bibs, t, nowSec)
  {
    assert bibs[i..][1..] == bibs[i + 1..];
  }

  /** The body of the merge loop: touch the stored item with the bib's id, or push a new one. */
  method TouchOrInsert(items: seq<LibraryItem>, item: Bib, t: ItemType, nowSec: int) returns (next: seq<LibraryItem>)
    ensures next == InsertOrTouchOne(items, item, t, nowSec)
  {
    var existingItem := IndexOfId(items, item.id);
    if existingItem.Some? {
      var k := existingItem.value;
      next := items[k := items[k].(updateDate := nowSec)];
    } else {
      next := items + [NewItem(item, t, nowSec)];
    }
  }

  /** The `for…in` loop over the page's bibs, updating the store in place. */
  method MergeBibs(store: Store, bibs: seq<Bib>, t: ItemType, nowMs: nat)
    modifies store
    ensures store.libraryItems == InsertOrTouch(old(store.libraryItems), bibs, t, NowSec(nowMs))
    ensures store.wishListItems == old(store.wishListItems)
  {
    ghost var items0 := store.libraryItems;
    var nowSec := NowSec(nowMs);
    var i := 0;
    while i < |bibs|
      invariant 0 <= i <= |bibs|
      invariant store.wishListItems == old(store.wishListItems)
      invariant InsertOrTouch(store.libraryItems, bibs[i..], t, nowSec) == InsertOrTouch(items0, bibs, t, nowSec)
    {
      var next := TouchOrInsert(store.libraryItems, bibs[i], t, nowSec);
      InsertOrTouchStep(store.libraryItems, next, bibs, i, t, nowSec, items0);
      store.libraryItems := next;
      i := i + 1;
    }
    assert bibs[i..] == [];
  }

  /** The purge test: updated at most 7 days ago. */
  function Recent(nowSec: int): LibraryItem -> bool {
    (item: LibraryItem) => nowSec - item.updateDate <= RETENTION_DAYS * SECONDS_PER_DAY
  }

  /** Removes, across both types, the items not updated in the past 7 days. */
  function Purge(items: seq<LibraryItem>, nowSec: int): (r: seq<LibraryItem>)
    ensures forall i :: 0 <= i < |r| ==> r[i] in items && nowSec - r[i].updateDate <= 7 * 24 * 3600
    ensures forall i :: 0 <= i < |items| && nowSec - items[i].updateDate <= 7 * 24 * 3600 ==> items[i] in r
  {
    Seqs.Filter(items, Recent(nowSec))
  }

  function WishListTest(wishList: seq<string>): LibraryItem -> bool {
    (item: LibraryItem) => TitleMatchesWishList(item.title, wishList)
  }

  /** `filteredWishListItems`: the available-now items whose title contains a wish-list phrase. */
  function WishListItems(items: seq<LibraryItem>, wishList: seq<string>): (r: seq<LibraryItem>)
    ensures forall i :: 0 <= i < |r| ==>
              r[i] in items && r[i].itemType == AvailableNow && TitleMatchesWishList(r[i].title, wishList)
    ensures forall i :: (0 <= i < |items| && items[i].itemType == AvailableNow
                         && TitleMatchesWishList(items[i].title, wishList)) ==> items[i] in r
  {
    Seqs.Filter(FilterItemsByType(items, AvailableNow), WishListTest(wishList))
  }

  /** The copy filter of the older cycle: available, not holdable, and not a "4K" call number. */
  predicate IsLoanable(c: Copy) {
    c.status == "AVAILABLE" && Text.EndsWith(c.collection, "Not Holdable") && !Text.StartsWith(c.callNumber, "4K")
  }

  /** The loanable copies the availability endpoint reports for an id; `None` when the fetch or the parse throws. */
  function LoanableCopies(probe: Probe, id: string): Option<seq<Copy>> {
    match probe(id)
    case None => None
    case Some(copies) => Some(Seqs.Filter(copies, IsLoanable))
  }

  /**
   * One loanable copy of the wish-listed title `item`: a copy at a branch missing
   * from the table is skipped; otherwise the first stored item with the title's id
   * is debounced for that branch, and when it fires it is pushed and a block naming
   * the title is added.
   */
  function CopyStep(s: PassState, item: LibraryItem, c: Copy, table: seq<Location>, nowMs: nat, delay: int): PassState {
    match FindLocation(table, c.branchName)
    case None => s
    case Some(loc) =>
      match IndexOfId(s.items, item.id)
      case None => s
      case Some(i) =>
        var (stamped, fired) := StampBranch(s.items[i], loc, nowMs, delay);
        if !fired then s
        else PassState(s.items[i := stamped], s.alerted + [i], s.blocks + [AvailableBlock(item.title, loc.name, item.url)])
  }

  function CopiesPass(s: PassState, item: LibraryItem, copies: seq<Copy>, table: seq<Location>,
                      nowMs: nat, delay: int): (r: PassState)
    ensures SameIds(s.items, r.items)
    ensures ValidPass(s) ==> ValidPass(r)
    decreases |copies|
  {
    if copies == [] then s
    else CopiesPass(CopyStep(s, item, copies[0], table, nowMs, delay), item, copies[1..], table, nowMs, delay)
  }

  /** How the probing of the wish-listed titles ends: all probed, or a probe threw; either way with the state reached. */
  datatype ProbeOutcome = Finished(state: PassState) | Aborted(state: PassState)

  function ProbePass(s: PassState, wished: seq<LibraryItem>, probe: Probe, table: seq<Location>,
                     nowMs: nat, delay: int): (r: ProbeOutcome)
    ensures SameIds(s.items, r.state.items)
    ensures ValidPass(s) ==> ValidPass(r.state)
    decreases |wished|
  {
    if wished == [] then Finished(s)
    else match LoanableCopies(probe, wished[0].id)
      case None => Aborted(s)
      case Some(copies) =>
        ProbePass(CopiesPass(s, wished[0], copies, table, nowMs, delay), wished[1..], probe, table, nowMs, delay)
  }

  lemma CopiesPassUnfold(s: PassState, item: LibraryItem, copies: seq<Copy>, j: int, table: seq<Location>,
                         nowMs: nat, delay: int)
    requires 0 <= j < |copies|
    ensures CopiesPass(s, item, copies[j..], table, nowMs, delay)
            == CopiesPass(CopyStep(s, item, copies[j], table, nowMs, delay), item, copies[j + 1..], table, nowMs, delay)
  {
    assert copies[j..][1..] == copies[j + 1..];
  }

  lemma ProbePassUnfold(s: PassState, wished: seq<LibraryItem>, i: int, probe: Probe, table: seq<Location>,
                        nowMs: nat, delay: int)
    requires 0 <= i < |wished|
    ensures ProbePass(s, wished[i..], probe, table, nowMs, delay)
            == match LoanableCopies(probe, wished[i].id)
               case None => Aborted(s)
               case Some(copies) =>
                 ProbePass(CopiesPass(s, wished[i], copies, table, nowMs, delay), wished[i + 1..], probe, table, nowMs, delay)
  {
    assert wished[i..][1..] == wished[i + 1..];
  }

  /** The probing aborts exactly when the probe of some wish-listed title throws. */
  lemma {:induction false} ProbePassAbortsIff(s: PassState, wished: seq<LibraryItem>, probe: Probe, table: seq<Location>,
                                              nowMs: nat, delay: int)
    ensures ProbePass(s, wished, probe, table, nowMs, delay).Aborted?
            <==> exists n :: 0 <= n < |wished| && probe(wished[n].id).None?
    decreases |wished|
  {
    if wished != [] {
      match probe(wished[0].id)
      case None =>
        assert probe(wished[0].id).None?;
      case Some(all) =>
        var s1 := CopiesPass(s, wished[0], Seqs.Filter(all, IsLoanable), table, nowMs, delay);
        ProbePassAbortsIff(s1, wished[1..], probe, table, nowMs, delay);
        if exists n :: 0 <= n < |wished| && probe(wished[n].id).None? {
          var n :| 0 <= n < |wished| && probe(wished[n].id).None?;
          assert wished[1..][n - 1] == wished[n];
        }
        if exists m :: 0 <= m < |wished[1..]| && probe(wished[1..][m].id).None? {
          var m :| 0 <= m < |wished[1..]| && probe(wished[1..][m].id).None?;
          assert wished[m + 1] == wished[1..][m];
        }
    }
  }

  /**
   * An available-now scrape of a parsed page throws "Server Error - Check Logs"
   * exactly when the probe of some wish-listed title of the merged store throws.
   */
  lemma ScrapeErrorIff(items: seq<LibraryItem>, wishList: seq<string>, bibs: seq<Bib>, probe: Probe,
                       nowMs: nat, delay: int)
    ensures var merged := Purge(InsertOrTouch(items, bibs, AvailableNow, NowSec(nowMs)), NowSec(nowMs));
            var wished := WishListItems(merged, wishList);
            ScrapeCycle(items, wishList, Parsed(bibs), AvailableNow, probe, nowMs, delay).1.ServerError?
            <==> exists n :: 0 <= n < |wished| && probe(wished[n].id).None?
  {
    var merged := Purge(InsertOrTouch(items, bibs, AvailableNow, NowSec(nowMs)), NowSec(nowMs));
    var outcome := ProbePass(PassState(merged, [], []), WishListItems(merged, wishList), probe, SCRAPE_LOCATIONS, nowMs, delay);
    ProbePassAbortsIff(PassState(merged, [], []), WishListItems(merged, wishList), probe, SCRAPE_LOCATIONS, nowMs, delay);
    assert ScrapeCycle(items, wishList, Parsed(bibs), AvailableNow, probe, nowMs, delay).1.ServerError? == outcome.Aborted?;
  }

  /** One copy: find its branch, then the stored item, then debounce and record. */
  method NotifyCopy(store: Store, item: LibraryItem, bibItem: Copy, table: seq<Location>, nowMs: nat, delay: int,
                    alerted0: seq<nat>, blocks0: seq<string>)
    returns (alerted: seq<nat>, blocks: seq<string>)
    modifies store
    ensures PassState(store.libraryItems, alerted, blocks)
            == CopyStep(PassState(old(store.libraryItems), alerted0, blocks0), item, bibItem, table, nowMs, delay)
    ensures store.wishListItems == old(store.wishListItems)
  {
    alerted, blocks := alerted0, blocks0;
    var location := FindLocation(table, bibItem.branchName);
    if location.Some? {
      var index := IndexOfId(store.libraryItems, item.id);
      if index.Some? {
        var (dbItem, fired) := StampBranch(store.libraryItems[index.value], location.value, nowMs, delay);
        if fired {
          store.libraryItems := store.libraryItems[index.value := dbItem];
          alerted := alerted + [index.value];
          blocks := blocks + [AvailableBlock(item.title, location.value.name, item.url)];
        }
      }
    }
  }

  /** The loop over the loanable copies of one wish-listed title, updating the store in place. */
  method NotifyCopies(store: Store, item: LibraryItem, copies: seq<Copy>, table: seq<Location>, nowMs: nat, delay: int,
                      alerted0: seq<nat>, blocks0: seq<string>)
    returns (alerted: seq<nat>, blocks: seq<string>)
    modifies store
    ensures PassState(store.libraryItems, alerted, blocks)
            == CopiesPass(PassState(old(store.libraryItems), alerted0, blocks0), item, copies, table, nowMs, delay)
    ensures store.wishListItems == old(store.wishListItems)
  {
    ghost var start := PassState(store.libraryItems, alerted0, blocks0);
    alerted, blocks := alerted0, blocks0;
    var j := 0;
    while j < |copies|
      invariant 0 <= j <= |copies|
      invariant store.wishListItems == old(store.wishListItems)
      invariant CopiesPass(PassState(store.libraryItems, alerted, blocks), item, copies[j..], table, nowMs, delay)
                == CopiesPass(start, item, copies, table, nowMs, delay)
    {
      ghost var before := PassState(store.libraryItems, alerted, blocks);
      CopiesPassUnfold(before, item, copies, j, table, nowMs, delay);
      alerted, blocks := NotifyCopy(store, item, copies[j], table, nowMs, delay, alerted, blocks);
      j := j + 1;
    }
    assert copies[j..] == [];
  }

  /** The loop over the wish-listed titles: probe each, then walk its loanable copies; a probe that throws ends it. */
  method NotifyWishListed(store: Store, wished: seq<LibraryItem>, probe: Probe, table: seq<Location>,
                          nowMs: nat, delay: int)
    returns (aborted: bool, alerted: seq<nat>, blocks: seq<string>)
    modifies store
    ensures (if aborted then Aborted(PassState(store.libraryItems, alerted, blocks))
             else Finished(PassState(store.libraryItems, alerted, blocks)))
            == ProbePass(PassState(old(store.libraryItems), [], []), wished, probe, table, nowMs, delay)
    ensures aborted <==> exists n :: 0 <= n < |wished| && probe(wished[n].id).None?
    ensures store.wishListItems == old(store.wishListItems)
  {
    ghost var start := PassState(store.libraryItems, [], []);
    ProbePassAbortsIff(start, wished, probe, table, nowMs, delay);
    alerted, blocks := [], [];
    var i := 0;
    while i < |wished|
      invariant 0 <= i <= |wished|
      invariant store.wishListItems == old(store.wishListItems)
      invariant ProbePass(PassState(store.libraryItems, alerted, blocks), wished[i..], probe, table, nowMs, delay)
                == ProbePass(start, wished, probe, table, nowMs, delay)
    {
      ghost var before := PassState(store.libraryItems, alerted, blocks);
      ProbePassUnfold(before, wished, i, probe, table, nowMs, delay);
      var item := wished[i];
      var response := probe(item.id);
      if response.None? {
        return true, alerted, blocks;
      }
      var availableBibItems := Seqs.Filter(response.value, IsLoanable);
      alerted, blocks := NotifyCopies(store, item, availableBibItems, table, nowMs, delay, alerted, blocks);
      i := i + 1;
    }
    assert wished[i..] == [];
    return false, alerted, blocks;
  }

  /** The store and the outcome one `scrapeItems` call leaves. */
  function ScrapeCycle(items: seq<LibraryItem>, wishList: seq<string>, data: PageData, t: ItemType,
                       probe: Probe, nowMs: nat, delay: int): (r: (seq<LibraryItem>, ScrapeOutcome))
    ensures data.Unparsable? ==> r == (items, ServerError(SERVER_ERROR))
    ensures r.1.ServerError? ==> r.1.message == SERVER_ERROR
    ensures data.Parsed? ==> SameIds(Purge(InsertOrTouch(items, data.bibs, t, NowSec(nowMs)), NowSec(nowMs)), r.0)
    ensures data.Parsed? && t == OnOrder ==>
              var merged := Purge(InsertOrTouch(items, data.bibs, t, NowSec(nowMs)), NowSec(nowMs));
              && r.1.Returned?
              && (r.1.notification.Some? <==> exists j :: 0 <= j < |merged| && AwaitsOnOrderAlert(merged[j]))
              && forall k :: 0 <= k < |r.1.items| ==> r.1.items[k].itemType == OnOrder && r.1.items[k] in r.0
  {
    match data
    case Unparsable => (items, ServerError(SERVER_ERROR))
    case Parsed(bibs) =>
      var nowSec := NowSec(nowMs);
      var merged := Purge(InsertOrTouch(items, bibs, t, nowSec), nowSec);
      match t
      case AvailableNow =>
        var outcome := ProbePass(PassState(merged, [], []), WishListItems(merged, wishList), probe,
                                 SCRAPE_LOCATIONS, nowMs, delay);
        if outcome.Aborted? then (outcome.state.items, ServerError(SERVER_ERROR))
        else (outcome.state.items, Returned(AlertedItems(outcome.state), AlertMessage(t, outcome.state.blocks)))
      case OnOrder =>
        var stamped := StampOnOrder(merged, nowSec);
        (stamped, Returned(FilterItemsByType(stamped, OnOrder), AlertMessage(t, OnOrderBlocks(merged))))
  }

  /** `scrapeItems(config)` against the store. */
  method ScrapeItems(store: Store, data: PageData, t: ItemType, probe: Probe, nowMs: nat, delay: int)
    returns (outcome: ScrapeOutcome)
    modifies store
    ensures (store.libraryItems, outcome)
            == ScrapeCycle(old(store.libraryItems), old(store.wishListItems), data, t, probe, nowMs, delay)
    ensures store.wishListItems == old(store.wishListItems)
    ensures data.Unparsable? ==> store.libraryItems == old(store.libraryItems) && outcome == ServerError(SERVER_ERROR)
  {
    if data.Unparsable? {
      return ServerError(SERVER_ERROR);
    }
    var nowSec := NowSec(nowMs);
    MergeBibs(store, data.bibs, t, nowMs);
    store.libraryItems := Purge(store.libraryItems, nowSec);
    if t == AvailableNow {
      var filteredWishListItems := WishListItems(store.libraryItems, store.wishListItems);
      var aborted, alerted, blocks := NotifyWishListed(store, filteredWishListItems, probe, SCRAPE_LOCATIONS, nowMs, delay);
      if aborted {
        return ServerError(SERVER_ERROR);
      }
      outcome := Returned(AlertedItems(PassState(store.libraryItems, alerted, blocks)), AlertMessage(t, blocks));
    } else {
      var blocks := StampUnnotifiedOnOrder(store, nowMs);
      outcome := Returned(FilterItemsByType(store.libraryItems, OnOrder), AlertMessage(t, blocks));
    }
  }
}
