/**
 * The current sync cycle, `refreshItems` of wcclsHandler.js: map the extracted
 * bibs to title records, drop items not updated for 30 days, rebuild the
 * partition of `config.type` from the refreshed titles (overlaying the fields of
 * a stored item with the same id), then either debounce alerts per branch for the
 * available copies of every available-now item, or stamp on-order items that were
 * never announced; finally compose one aggregated alert.
 *
 * The page fetch, the availability endpoint and the Discord webhook are outside
 * the model: the parsed page data and a probe function are inputs, and the alert
 * text is an output.
 */
module Wccls {
  import opened Catalog
  import Seqs

  /** What `refreshItems` resolves to: `undefined` after a caught error, else the returned items and the alert it sent. */
  datatype Outcome = Failed | Done(returned: seq<LibraryItem>, notification: Option<string>)

  const FRESHNESS_DAYS := 30

  /** The object `refreshTitles` pushes for one bib; its keys overwrite those of a stored item. */
  datatype Title = Title(
    id: string, itemType: ItemType, title: string, details: Details, url: string, updateDate: int)

  function TitleRecord(b: Bib, t: ItemType, nowSec: int): Title {
    Title(b.id, t, b.title,
      Details(b.subtitle, b.publicationDate, b.format, b.edition, b.description, Some(b.jacketLarge)),
      RecordUrl(b.id), nowSec)
  }

  /** One title per bib, in the dictionary's order, typed `config.type` and updated now. */
  function RefreshedTitles(bibs: seq<Bib>, t: ItemType, nowSec: int): (r: seq<Title>)
    ensures |r| == |bibs|
    ensures forall i :: 0 <= i < |bibs| ==>
      && r[i].id == bibs[i].id && r[i].itemType == t && r[i].updateDate == nowSec
      && r[i].url == RecordUrl(bibs[i].id) && r[i].title == bibs[i].title
      && r[i].details.image == Some(bibs[i].jacketLarge)
  {
    seq(|bibs|, i requires 0 <= i < |bibs| => TitleRecord(bibs[i], t, nowSec))
  }

  /** `refreshTitles`: the loop pushing one record per bib. */
  method RefreshTitles(bibs: seq<Bib>, t: ItemType, nowMs: nat) returns (titles: seq<Title>)
    ensures titles == RefreshedTitles(bibs, t, NowSec(nowMs))
  {
    titles := [];
    var i := 0;
    while i < |bibs|
      invariant 0 <= i <= |bibs|
      invariant titles == RefreshedTitles(bibs[..i], t, NowSec(nowMs))
    {
      titles := titles + [TitleRecord(bibs[i], t, NowSec(nowMs))];
      i := i + 1;
      assert bibs[..i][..i - 1] == bibs[..i - 1];
    }
    assert bibs[..i] == bibs;
  }

  /** The purge test: updated strictly after thirty days before now. */
  function Fresh(nowSec: int): LibraryItem -> bool {
    (item: LibraryItem) => item.updateDate > nowSec - FRESHNESS_DAYS * SECONDS_PER_DAY
  }

  /** Removes the items not updated in the past 30 days, whatever their type. */
  function Purge(items: seq<LibraryItem>, nowSec: int): (r: seq<LibraryItem>)
    ensures forall i :: 0 <= i < |r| ==> r[i] in items && r[i].updateDate > nowSec - 30 * 24 * 3600
    ensures forall i :: 0 <= i < |items| && items[i].updateDate > nowSec - 30 * 24 * 3600 ==> items[i] in r
  {
    Seqs.Filter(items, Fresh(nowSec))
  }

  /** The purge keeps the survivors in their order: it distributes over concatenation. */
  lemma PurgeKeepsOrder(a: seq<LibraryItem>, b: seq<LibraryItem>, nowSec: int)
    ensures Purge(a + b, nowSec) == Purge(a, nowSec) + Purge(b, nowSec)
  {
    Seqs.FilterAppend(a, b, Fresh(nowSec));
  }

  /** `{ ...stored, ...title }` */
  function Overlay(stored: LibraryItem, title: Title): LibraryItem {
    stored.(id := title.id, itemType := title.itemType, title := title.title,
            details := title.details, url := title.url, updateDate := title.updateDate)
  }

  /** A title whose id is not stored, with `createDate` set to now. */
  function Inserted(title: Title, nowSec: int): LibraryItem {
    LibraryItem(title.id, title.itemType, title.title, title.details, title.url,
                nowSec, title.updateDate, None, map[])
  }

  /**
   * The record the rebuilt partition holds for one title: every field the title
   * carries comes from the title; `createDate`, `notifyDate` and `availability`
   * come from the first stored item with that id, of either type, or are fresh.
   */
  function Reconcile(items: seq<LibraryItem>, title: Title, nowSec: int): (r: LibraryItem)
    ensures && r.id == title.id && r.itemType == title.itemType && r.title == title.title
            && r.details == title.details && r.url == title.url && r.updateDate == title.updateDate
    ensures IndexOfId(items, title.id).Some? ==>
              var stored := items[IndexOfId(items, title.id).value];
              r.createDate == stored.createDate && r.notifyDate == stored.notifyDate
              && r.availability == stored.availability
    ensures IndexOfId(items, title.id).None? ==>
              r.createDate == nowSec && r.notifyDate == None && r.availability == map[]
  {
    match IndexOfId(items, title.id)
    case Some(i) => Overlay(items[i], title)
    case None => Inserted(title, nowSec)
  }

  function Others(items: seq<LibraryItem>, t: ItemType): seq<LibraryItem> {
    Seqs.Filter(items, NotOfType(t))
  }

  /** `[...otherExistingLibraryItems, ...refreshedTitles.map(...)]` */
  function MergeTitles(items: seq<LibraryItem>, titles: seq<Title>, t: ItemType, nowSec: int): (r: seq<LibraryItem>)
    ensures |r| == |Others(items, t)| + |titles|
    ensures forall j :: 0 <= j < |Others(items, t)| ==> r[j].itemType != t && r[j] in items
    ensures forall k :: 0 <= k < |titles| ==>
              var rec := r[|Others(items, t)| + k];
              rec.id == titles[k].id && rec.itemType == titles[k].itemType && rec.updateDate == titles[k].updateDate
  {
    Others(items, t) + ReconcileAll(items, titles, nowSec)
  }

  /** `refreshedTitles.map(...)`: every refreshed title reconciled with the store. */
  function ReconcileAll(items: seq<LibraryItem>, titles: seq<Title>, nowSec: int): seq<LibraryItem> {
    seq(|titles|, k requires 0 <= k < |titles| => Reconcile(items, titles[k], nowSec))
  }

  /** The purge, then the rebuild of the `t` partition. */
  function MergedStore(items: seq<LibraryItem>, bibs: seq<Bib>, t: ItemType, nowMs: nat): seq<LibraryItem> {
    var nowSec := NowSec(nowMs);
    MergeTitles(Purge(items, nowSec), RefreshedTitles(bibs, t, nowSec), t, nowSec)
  }

  /** An available-now copy, tagged with the id of the title it was probed for. */
  datatype TaggedCopy = TaggedCopy(id: string, copy: Copy)

  function Tag(copies: seq<Copy>, id: string): seq<TaggedCopy> {
    seq(|copies|, i requires 0 <= i < |copies| => TaggedCopy(id, copies[i]))
  }

  /** The copies of one title with status "AVAILABLE"; a probe that throws contributes nothing. */
  function ProbeTitle(item: LibraryItem, probe: Probe): seq<TaggedCopy> {
    match probe(item.id)
    case None => []
    case Some(copies) => Tag(Seqs.Filter(copies, IsAvailable), item.id)
  }

  function ProbedCopies(titles: seq<LibraryItem>, probe: Probe): seq<TaggedCopy> {
    if titles == [] then [] else ProbeTitle(titles[0], probe) + ProbedCopies(titles[1..], probe)
  }

  /** Probing title `i` moves the remaining work one title on. */
  lemma ProbeStep(titles: seq<LibraryItem>, probe: Probe, i: int, before: seq<TaggedCopy>, after: seq<TaggedCopy>)
    requires 0 <= i < |titles|
    requires after == before + ProbeTitle(titles[i], probe)
    ensures after + ProbedCopies(titles[i + 1..], probe) == before + ProbedCopies(titles[i..], probe)
  {
    ProbedCopiesUnfold(titles, probe, i);
    Seqs.AppendAssoc(before, ProbeTitle(titles[i], probe), ProbedCopies(titles[i + 1..], probe));
  }

  lemma ProbedCopiesUnfold(titles: seq<LibraryItem>, probe: Probe, i: int)
    requires 0 <= i < |titles|
    ensures ProbedCopies(titles[i..], probe) == ProbeTitle(titles[i], probe) + ProbedCopies(titles[i + 1..], probe)
  {
    assert titles[i..][1..] == titles[i + 1..];
  }

  /**
   * Every probed copy has status "AVAILABLE" and was reported by the successful
   * probe of a title carrying the id it is tagged with.
   */
  lemma {:induction false} ProbedCopiesSound(titles: seq<LibraryItem>, probe: Probe, m: int)
    requires 0 <= m < |ProbedCopies(titles, probe)|
    ensures var e := ProbedCopies(titles, probe)[m];
            && (exists n :: 0 <= n < |titles| && titles[n].id == e.id)
            && probe(e.id).Some? && e.copy in probe(e.id).value && IsAvailable(e.copy)
  {
    var head := ProbeTitle(titles[0], probe);
    var rest := ProbedCopies(titles[1..], probe);
    assert ProbedCopies(titles, probe) == head + rest;
    if m < |head| {
      ProbeTitleSound(titles[0], probe, m);
    } else {
      var e := rest[m - |head|];
      ProbedCopiesSound(titles[1..], probe, m - |head|);
      var n :| 0 <= n < |titles[1..]| && titles[1..][n].id == e.id;
      assert titles[n + 1] == titles[1..][n];
    }
  }

  lemma ProbeTitleSound(item: LibraryItem, probe: Probe, m: int)
    requires 0 <= m < |ProbeTitle(item, probe)|
    ensures var e := ProbeTitle(item, probe)[m];
            && e.id == item.id && probe(e.id).Some? && e.copy in probe(e.id).value && IsAvailable(e.copy)
  {
  }

  /** Every "AVAILABLE" copy a successful probe reports is kept, tagged with the title's id. */
  lemma {:induction false} ProbedCopiesComplete(titles: seq<LibraryItem>, probe: Probe, n: int, c: Copy)
    requires 0 <= n < |titles| && probe(titles[n].id).Some?
    requires c in probe(titles[n].id).value && IsAvailable(c)
    ensures TaggedCopy(titles[n].id, c) in ProbedCopies(titles, probe)
  {
    var head := ProbeTitle(titles[0], probe);
    assert ProbedCopies(titles, probe) == head + ProbedCopies(titles[1..], probe);
    if n == 0 {
      var available := Seqs.Filter(probe(titles[0].id).value, IsAvailable);
      var i :| 0 <= i < |probe(titles[0].id).value| && probe(titles[0].id).value[i] == c;
      assert c in available;
      var m :| 0 <= m < |available| && available[m] == c;
      assert head[m] == TaggedCopy(titles[0].id, c);
    } else {
      assert titles[1..][n - 1] == titles[n];
      ProbedCopiesComplete(titles[1..], probe, n - 1, c);
    }
  }

  /** The copies keep title order: those of earlier titles come first. */
  lemma {:induction false} ProbedCopiesAppend(a: seq<LibraryItem>, b: seq<LibraryItem>, probe: Probe)
    ensures ProbedCopies(a + b, probe) == ProbedCopies(a, probe) + ProbedCopies(b, probe)
  {
    if a == [] {
      assert a + b == b;
    } else {
      assert (a + b)[1..] == a[1..] + b;
      ProbedCopiesAppend(a[1..], b, probe);
      Seqs.AppendAssoc(ProbeTitle(a[0], probe), ProbedCopies(a[1..], probe), ProbedCopies(b, probe));
    }
  }

  /** `getAvailableBibItems`: probe each title in order, keep its available copies. */
  method GetAvailableBibItems(titles: seq<LibraryItem>, probe: Probe) returns (copies: seq<TaggedCopy>)
    ensures copies == ProbedCopies(titles, probe)
  {
    copies := [];
    var i := 0;
    while i < |titles|
      invariant 0 <= i <= |titles|
      invariant copies + ProbedCopies(titles[i..], probe) == ProbedCopies(titles, probe)
    {
      ghost var before := copies;
      var response := probe(titles[i].id);
      if response.Some? {
        var available := Seqs.Filter(response.value, IsAvailable);
        copies := copies + Tag(available, titles[i].id);
      }
      ProbeStep(titles, probe, i, before, copies);
      i := i + 1;
    }
    assert titles[i..] == [];
  }

  /**
   * One turn of the `forEach` over available copies: a copy at a branch missing
   * from the table is skipped; otherwise the first stored item with the copy's id
   * is debounced for that branch, and when it fires the item is pushed and, if its
   * title matches the wish list, a message block is added.
   */
  function AvailabilityStep(s: PassState, e: TaggedCopy, wishList: seq<string>, table: seq<Location>,
                            nowMs: nat, delay: int): PassState
  {
    match FindLocation(table, e.copy.branchName)
    case None => s
    case Some(loc) =>
      match IndexOfId(s.items, e.id)
      case None => s
      case Some(i) =>
        var (item, fired) := StampBranch(s.items[i], loc, nowMs, delay);
        if !fired then s
        else PassState(s.items[i := item], s.alerted + [i],
               s.blocks + (if TitleMatchesWishList(item.title, wishList)
                           then [AvailableBlock(item.title, loc.name, item.url)] else []))
  }

  function AvailabilityPass(s: PassState, events: seq<TaggedCopy>, wishList: seq<string>, table: seq<Location>,
                            nowMs: nat, delay: int): (r: PassState)
    ensures SameIds(s.items, r.items)
    ensures ValidPass(s) ==> ValidPass(r)
    decreases |events|
  {
    if events == [] then s
    else AvailabilityPass(AvailabilityStep(s, events[0], wishList, table, nowMs, delay),
                          events[1..], wishList, table, nowMs, delay)
  }

  lemma AvailabilityPassUnfold(s: PassState, events: seq<TaggedCopy>, i: int, wishList: seq<string>,
                               table: seq<Location>, nowMs: nat, delay: int)
    requires 0 <= i < |events|
    ensures AvailabilityPass(s, events[i..], wishList, table, nowMs, delay)
            == AvailabilityPass(AvailabilityStep(s, events[i], wishList, table, nowMs, delay),
                                events[i + 1..], wishList, table, nowMs, delay)
  {
    assert events[i..][1..] == events[i + 1..];
  }

  /** The `forEach` over the available copies, updating the store in place. */
  method NotifyAvailable(store: Store, copies: seq<TaggedCopy>, table: seq<Location>, nowMs: nat, delay: int)
    returns (alerted: seq<nat>, blocks: seq<string>)
    modifies store
    ensures PassState(store.libraryItems, alerted, blocks)
            == AvailabilityPass(PassState(old(store.libraryItems), [], []), copies,
                                old(store.wishListItems), table, nowMs, delay)
    ensures store.wishListItems == old(store.wishListItems)
  {
    ghost var items0 := store.libraryItems;
    var wishList := store.wishListItems;
    alerted, blocks := [], [];
    var i := 0;
    while i < |copies|
      invariant 0 <= i <= |copies|
      invariant store.wishListItems == wishList == old(store.wishListItems)
      invariant AvailabilityPass(PassState(store.libraryItems, alerted, blocks), copies[i..], wishList, table, nowMs, delay)
                == AvailabilityPass(PassState(items0, [], []), copies, wishList, table, nowMs, delay)
    {
      ghost var before := PassState(store.libraryItems, alerted, blocks);
      AvailabilityPassUnfold(before, copies, i, wishList, table, nowMs, delay);
      var bibItem := copies[i];
      var location := FindLocation(table, bibItem.copy.branchName);
      if location.Some? {
        var index := IndexOfId(store.libraryItems, bibItem.id);
        if index.Some? {
          var (dbItem, fired) := StampBranch(store.libraryItems[index.value], location.value, nowMs, delay);
          if fired {
            store.libraryItems := store.libraryItems[index.value := dbItem];
            alerted := alerted + [index.value];
            if TitleMatchesWishList(dbItem.title, wishList) {
              blocks := blocks + [AvailableBlock(dbItem.title, location.value.name, dbItem.url)];
            }
          }
        }
      }
      assert PassState(store.libraryItems, alerted, blocks)
             == AvailabilityStep(before, copies[i], wishList, table, nowMs, delay);
      i := i + 1;
    }
    assert copies[i..] == [];
  }

  /** `libraryItems[findIndex(item => item.id === title.id)] = title` */
  function WriteOne(items: seq<LibraryItem>, title: LibraryItem): seq<LibraryItem> {
    match IndexOfId(items, title.id)
    case None => items
    case Some(i) => items[i := title]
  }

  function WriteBack(items: seq<LibraryItem>, titles: seq<LibraryItem>): (r: seq<LibraryItem>)
    ensures SameIds(items, r)
    decreases |titles|
  {
    if titles == [] then items else WriteBack(WriteOne(items, titles[0]), titles[1..])
  }

  /** The `forEach` writing each on-order title back at the first index holding its id. */
  method WriteBackTitles(store: Store, titles: seq<LibraryItem>)
    modifies store
    ensures store.libraryItems == WriteBack(old(store.libraryItems), titles)
    ensures store.wishListItems == old(store.wishListItems)
  {
    ghost var items0 := store.libraryItems;
    var k := 0;
    while k < |titles|
      invariant 0 <= k <= |titles|
      invariant store.wishListItems == old(store.wishListItems)
      invariant WriteBack(store.libraryItems, titles[k..]) == WriteBack(items0, titles)
    {
      assert titles[k..][1..] == titles[k + 1..];
      var index := IndexOfId(store.libraryItems, titles[k].id);
      if index.Some? {
        store.libraryItems := store.libraryItems[index.value := titles[k]];
      }
      k := k + 1;
    }
    assert titles[k..] == [];
  }

  /** The store and the outcome one `refreshItems` call leaves. */
  function RefreshCycle(items: seq<LibraryItem>, wishList: seq<string>, data: PageData, t: ItemType,
                        probe: Probe, nowMs: nat, delay: int): (r: (seq<LibraryItem>, Outcome))
    ensures r.1.Failed? <==> data.Unparsable?
    ensures data.Unparsable? ==> r.0 == items
    ensures data.Parsed? ==> SameIds(MergedStore(items, data.bibs, t, nowMs), r.0)
    ensures data.Parsed? && t == OnOrder ==>
              var merged := MergedStore(items, data.bibs, t, nowMs);
              r.1.notification.Some? <==> exists j :: 0 <= j < |merged| && AwaitsOnOrderAlert(merged[j])
    ensures data.Parsed? && t == AvailableNow ==> forall k :: 0 <= k < |r.1.returned| ==> r.1.returned[k] in r.0
  {
    match data
    case Unparsable => (items, Failed)
    case Parsed(bibs) =>
      var merged := MergedStore(items, bibs, t, nowMs);
      match t
      case AvailableNow =>
        var copies := ProbedCopies(Seqs.Filter(merged, OfType(AvailableNow)), probe);
        var pass := AvailabilityPass(PassState(merged, [], []), copies, wishList, CONFIG_LOCATIONS, nowMs, delay);
        (pass.items, Done(AlertedItems(pass), AlertMessage(t, pass.blocks)))
      case OnOrder =>
        var stamped := StampOnOrder(merged, NowSec(nowMs));
        var titles := Seqs.Filter(stamped, OfType(OnOrder));
        (WriteBack(stamped, titles), Done(titles, AlertMessage(t, OnOrderBlocks(merged))))
  }

  /** `refreshItems(config)` against the store. */
  method RefreshItems(store: Store, data: PageData, t: ItemType, probe: Probe, nowMs: nat, delay: int)
    returns (outcome: Outcome)
    modifies store
    ensures (store.libraryItems, outcome)
            == RefreshCycle(old(store.libraryItems), old(store.wishListItems), data, t, probe, nowMs, delay)
    ensures store.wishListItems == old(store.wishListItems)
    ensures data.Unparsable? ==> store.libraryItems == old(store.libraryItems) && outcome == Failed
  {
    if data.Unparsable? {
      return Failed;
    }
    var titles := RefreshTitles(data.bibs, t, nowMs);
    var nowSec := NowSec(nowMs);
    store.libraryItems := Purge(store.libraryItems, nowSec);
    store.libraryItems := MergeTitles(store.libraryItems, titles, t, nowSec);
    if t == AvailableNow {
      var availableItems := Seqs.Filter(store.libraryItems, OfType(t));
      var availableBibItems := GetAvailableBibItems(availableItems, probe);
      var alerted, blocks := NotifyAvailable(store, availableBibItems, CONFIG_LOCATIONS, nowMs, delay);
      outcome := Done(AlertedItems(PassState(store.libraryItems, alerted, blocks)), AlertMessage(t, blocks));
    } else {
      ghost var merged := store.libraryItems;
      var blocks := StampUnnotifiedOnOrder(store, nowMs);
      var onOrderTitles := Seqs.Filter(store.libraryItems, OfType(OnOrder));
      WriteBackTitles(store, onOrderTitles);
      outcome := Done(onOrderTitles, AlertMessage(t, blocks));
    }
  }
}
