/**
 * The persisted catalog document (`libraryItems` and `wishListItems`) and the
 * parts of the sync cycle that both revisions of it share: the first-by-id
 * lookup, the branch table lookup, the wish-list title match, the per-branch
 * notification debounce, the one-time stamping of on-order items and the text
 * of the aggregated alert.
 *
 * Time enters as one parameter `nowMs` (milliseconds, what `Date.now()`
 * returns); stored dates are whole seconds, `Math.floor(nowMs / 1000)`.
 */
module Catalog {
  import Text
  import Seqs

  datatype Option<+T> = None | Some(value: T)

  /** `config.type` */
  datatype ItemType = AvailableNow | OnOrder

  function TypeName(t: ItemType): string {
    match t
    case AvailableNow => "available now"
    case OnOrder => "on order"
  }

  /** One entry of the search page's `entities.bibs` dictionary (the dictionary key is the entry's id). */
  datatype Bib = Bib(
    id: string, title: string, subtitle: string, publicationDate: string,
    format: string, edition: string, description: string, jacketLarge: string)

  /** Descriptive fields of a stored item besides its title; `image` is absent on records the older cycle created. */
  datatype Details = Details(
    subtitle: string, publicationYear: string, format: string,
    edition: string, description: string, image: Option<string>)

  /** `availability[code]`: when an alert for that branch last fired, and the branch's name. */
  datatype BranchStamp = BranchStamp(notifyDate: int, location: string)

  /** A stored library item; an item without an `availability` object has the empty map. */
  datatype LibraryItem = LibraryItem(
    id: string, itemType: ItemType, title: string, details: Details, url: string,
    createDate: int, updateDate: int, notifyDate: Option<int>,
    availability: map<int, BranchStamp>)

  /** One physical copy reported by the availability endpoint (`entities.bibItems`). */
  datatype Copy = Copy(status: string, collection: string, callNumber: string, branchName: string)

  datatype Location = Location(code: int, name: string)

  /** The branch table of configs.js. */
  const CONFIG_LOCATIONS: seq<Location> := [
    Location(9, "Beaverton City Library"),
    Location(29, "Tigard Public Library"),
    Location(31, "Tualatin Public Library"),
    Location(39, "Beaverton Murray Scholls")
  ]

  const SECONDS_PER_DAY := 24 * 60 * 60

  /** `Math.floor(Date.now() / 1000)` */
  function NowSec(nowMs: nat): nat {
    nowMs / 1000
  }

  function RecordUrl(id: string): string {
    "https://wccls.bibliocommons.com/v2/record/" + id
  }

  /** `!!item.notifyDate`: absent and 0 both read as "not yet notified". */
  predicate Notified(item: LibraryItem) {
    item.notifyDate.Some? && item.notifyDate.value != 0
  }

  /** Every bib of the later page carries an id some bib of the earlier page carried. */
  ghost predicate IdsListedIn(later: seq<Bib>, earlier: seq<Bib>) {
    forall k :: 0 <= k < |later| ==> exists m :: 0 <= m < |earlier| && later[k].id == earlier[m].id
  }

  ghost predicate UniqueIds(items: seq<LibraryItem>) {
    forall i, j :: 0 <= i < j < |items| ==> items[i].id != items[j].id
  }

  /** Two stores whose items carry the same ids position by position. */
  ghost predicate SameIds(a: seq<LibraryItem>, b: seq<LibraryItem>) {
    |a| == |b| && forall j :: 0 <= j < |a| ==> a[j].id == b[j].id
  }

  /** `items.findIndex(item => item.id === id)`, `None` for -1; `find` is the item at that index. */
  function IndexOfId(items: seq<LibraryItem>, id: string): (r: Option<nat>)
    ensures r.Some? ==> r.value < |items| && items[r.value].id == id
    ensures r.Some? ==> forall j :: 0 <= j < r.value ==> items[j].id != id
    ensures r.None? <==> forall j :: 0 <= j < |items| ==> items[j].id != id
  {
    if items == [] then None
    else if items[0].id == id then Some(0)
    else match IndexOfId(items[1..], id)
      case None => None
      case Some(k) => Some(k + 1)
  }

  /** The lookup sees only the ids. */
  lemma SameIdsSameIndex(a: seq<LibraryItem>, b: seq<LibraryItem>, id: string)
    requires SameIds(a, b)
    ensures IndexOfId(a, id) == IndexOfId(b, id)
  {
  }

  /** `locations.find(location => location.name === name)` */
  function FindLocation(table: seq<Location>, name: string): (r: Option<Location>)
    ensures r.Some? ==> r.value in table && r.value.name == name
    ensures r.None? <==> forall k :: 0 <= k < |table| ==> table[k].name != name
  {
    if table == [] then None
    else if table[0].name == name then Some(table[0])
    else FindLocation(table[1..], name)
  }

  /** Some wish-list phrase, lower-cased, is a substring of the lower-cased title. */
  predicate TitleMatchesWishList(title: string, wishList: seq<string>) {
    exists k :: 0 <= k < |wishList| && Text.Contains(Text.Lower(title), Text.Lower(wishList[k]))
  }

  /** The copy filter of the current cycle: status "AVAILABLE". */
  predicate IsAvailable(c: Copy) {
    c.status == "AVAILABLE"
  }

  function Get(m: map<int, BranchStamp>, code: int): Option<BranchStamp> {
    if code in m then Some(m[code]) else None
  }

  /**
   * `!entry.notifyDate || new Date(entry.notifyDate * 1000) < new Date(Date.now() - NOTIFY_DELAY)`:
   * the branch was never announced (or its date is 0), or its stamp lies before
   * the delay window; seconds are scaled to milliseconds for the comparison.
   */
  predicate DelayExceeded(entry: Option<BranchStamp>, nowMs: int, delay: int) {
    entry.None? || entry.value.notifyDate == 0 || entry.value.notifyDate * 1000 < nowMs - delay
  }

  /**
   * The per-branch debounce on one item: when the delay is exceeded, the entry for
   * the branch's code is restamped with the current second and the branch name and
   * `fired` is true; otherwise the item is unchanged.
   */
  function StampBranch(item: LibraryItem, loc: Location, nowMs: nat, delay: int): (r: (LibraryItem, bool))
    ensures r.1 <==> DelayExceeded(Get(item.availability, loc.code), nowMs, delay)
    ensures r.0.(availability := item.availability) == item
    ensures r.0.availability.Keys == item.availability.Keys + {loc.code}
    ensures forall c :: c in item.availability && c != loc.code ==> r.0.availability[c] == item.availability[c]
    ensures r.1 ==> r.0.availability[loc.code] == BranchStamp(NowSec(nowMs), loc.name)
    ensures !r.1 ==> r.0 == item
  {
    if DelayExceeded(Get(item.availability, loc.code), nowMs, delay) then
      (item.(availability := item.availability[loc.code := BranchStamp(NowSec(nowMs), loc.name)]), true)
    else
      (item, false)
  }

  /**
   * An unfolding of `StampBranch` twice over.
   * Once a branch has been stamped at `nowMs`, a later check at `laterMs` fires again
   * exactly when the stamp, scaled back to milliseconds, lies before `laterMs - delay`;
   * a stamp taken during the first second of the epoch is 0 and never suppresses.
   */
  lemma RefireIff(item: LibraryItem, loc: Location, nowMs: nat, laterMs: nat, delay: int)
    requires StampBranch(item, loc, nowMs, delay).1
    ensures StampBranch(StampBranch(item, loc, nowMs, delay).0, loc, laterMs, delay).1
            <==> nowMs < 1000 || NowSec(nowMs) * 1000 < laterMs - delay
  {
  }

  /**
   * Debounce: after a branch fires at `nowMs`, no second alert fires for it while
   * `laterMs` stays within `delay - 999` ms of it (the stamp is truncated to whole
   * seconds, so up to 999 ms of the delay are lost); and it fires again once more
   * than `delay` ms have passed.
   */
  lemma {:induction false} DebounceWindow(item: LibraryItem, loc: Location, nowMs: nat, laterMs: nat, delay: int)
    requires StampBranch(item, loc, nowMs, delay).1
    requires nowMs >= 1000
    ensures laterMs + 999 <= nowMs + delay ==>
              !StampBranch(StampBranch(item, loc, nowMs, delay).0, loc, laterMs, delay).1
    ensures laterMs > nowMs + delay ==>
              StampBranch(StampBranch(item, loc, nowMs, delay).0, loc, laterMs, delay).1
  {
    RefireIff(item, loc, nowMs, laterMs, delay);
    assert NowSec(nowMs) * 1000 <= nowMs < NowSec(nowMs) * 1000 + 1000;
  }

  /**
   * A check of a copy of `id` at the branch named `branchName` would not fire: the
   * branch is not in the table, no item carries the id, or the branch's entry on
   * the first such item is inside the delay.
   */
  predicate Settled(items: seq<LibraryItem>, id: string, branchName: string, table: seq<Location>,
                    nowMs: nat, delay: int) {
    match FindLocation(table, branchName)
    case None => true
    case Some(loc) =>
      match IndexOfId(items, id)
      case None => true
      case Some(i) => !DelayExceeded(Get(items[i].availability, loc.code), nowMs, delay)
  }

  /**
   * Within one instant, stamping one item for one branch keeps every settled check
   * settled: the only entry it rewrites carries the current second, which lies
   * inside the delay once the instant's sub-second part is.
   */
  lemma StampKeepsSettled(items: seq<LibraryItem>, i: int, loc: Location, nowMs: nat, delay: int,
                          id: string, branchName: string, table: seq<Location>)
    requires 0 <= i < |items|
    requires nowMs >= 1000 && nowMs % 1000 <= delay
    requires Settled(items, id, branchName, table, nowMs, delay)
    ensures Settled(items[i := StampBranch(items[i], loc, nowMs, delay).0], id, branchName, table, nowMs, delay)
  {
    var item := StampBranch(items[i], loc, nowMs, delay).0;
    var r := items[i := item];
    assert SameIds(items, r);
    SameIdsSameIndex(items, r, id);
    assert NowSec(nowMs) * 1000 >= nowMs - delay;
    if StampBranch(items[i], loc, nowMs, delay).1 {
      assert Get(item.availability, loc.code) == Some(BranchStamp(NowSec(nowMs), loc.name));
    }
  }

  /** Within one instant, the check that stamped an item is settled afterwards. */
  lemma StampSettlesOwn(items: seq<LibraryItem>, i: int, loc: Location, nowMs: nat, delay: int,
                        id: string, branchName: string, table: seq<Location>)
    requires 0 <= i < |items|
    requires nowMs >= 1000 && nowMs % 1000 <= delay
    requires FindLocation(table, branchName) == Some(loc) && IndexOfId(items, id) == Some(i)
    ensures Settled(items[i := StampBranch(items[i], loc, nowMs, delay).0], id, branchName, table, nowMs, delay)
  {
    var item := StampBranch(items[i], loc, nowMs, delay).0;
    var r := items[i := item];
    assert SameIds(items, r);
    SameIdsSameIndex(items, r, id);
    assert NowSec(nowMs) * 1000 >= nowMs - delay;
    if StampBranch(items[i], loc, nowMs, delay).1 {
      assert Get(item.availability, loc.code) == Some(BranchStamp(NowSec(nowMs), loc.name));
    }
  }

  /** Progress of a pass over available copies: the store, the indices of the items pushed onto the alert list, and the message blocks. */
  datatype PassState = PassState(items: seq<LibraryItem>, alerted: seq<nat>, blocks: seq<string>)

  predicate ValidPass(s: PassState) {
    forall k :: 0 <= k < |s.alerted| ==> s.alerted[k] < |s.items|
  }

  /** The pushed items as the caller sees them: the store's final state of each. */
  function AlertedItems(s: PassState): (r: seq<LibraryItem>)
    requires ValidPass(s)
    ensures |r| == |s.alerted|
    ensures forall k :: 0 <= k < |r| ==> r[k] == s.items[s.alerted[k]] && r[k] in s.items
  {
    seq(|s.alerted|, k requires 0 <= k < |s.alerted| => s.items[s.alerted[k]])
  }

  /** `${title}\n${location.name}\n${url}` */
  function AvailableBlock(title: string, branch: string, url: string): string {
    title + "\n" + branch + "\n" + url
  }

  /** `${item.title}\n${item.url}` */
  function OnOrderBlock(item: LibraryItem): string {
    item.title + "\n" + item.url
  }

  predicate AwaitsOnOrderAlert(item: LibraryItem) {
    item.itemType == OnOrder && !Notified(item)
  }

  function StampIfAwaiting(item: LibraryItem, nowSec: int): LibraryItem {
    if AwaitsOnOrderAlert(item) then item.(notifyDate := Some(nowSec)) else item
  }

  /**
   * Every on-order item without a notify date gets `notifyDate = now`, in place;
   * nothing else changes, and a stamp once set is never replaced.
   */
  function StampOnOrder(items: seq<LibraryItem>, nowSec: int): (r: seq<LibraryItem>)
    ensures |r| == |items|
    ensures forall j :: 0 <= j < |items| ==> r[j].(notifyDate := items[j].notifyDate) == items[j]
    ensures forall j :: 0 <= j < |items| && !AwaitsOnOrderAlert(items[j]) ==> r[j] == items[j]
    ensures forall j :: 0 <= j < |items| && AwaitsOnOrderAlert(items[j]) ==> r[j].notifyDate == Some(nowSec)
    ensures nowSec != 0 ==> forall j :: 0 <= j < |r| ==> !AwaitsOnOrderAlert(r[j])
  {
    seq(|items|, j requires 0 <= j < |items| => StampIfAwaiting(items[j], nowSec))
  }

  /** One block per on-order item still awaiting its alert, in store order. */
  function OnOrderBlocks(items: seq<LibraryItem>): (r: seq<string>)
    ensures |r| <= |items|
    ensures r == [] <==> forall j :: 0 <= j < |items| ==> !AwaitsOnOrderAlert(items[j])
  {
    if items == [] then []
    else (if AwaitsOnOrderAlert(items[0]) then [OnOrderBlock(items[0])] else []) + OnOrderBlocks(items[1..])
  }

  /** Each block names an on-order item that was still awaiting its alert. */
  lemma {:induction false} OnOrderBlocksFromAwaiting(items: seq<LibraryItem>, k: int)
    requires 0 <= k < |OnOrderBlocks(items)|
    ensures exists j :: 0 <= j < |items| && AwaitsOnOrderAlert(items[j]) && OnOrderBlocks(items)[k] == OnOrderBlock(items[j])
  {
    var head := if AwaitsOnOrderAlert(items[0]) then [OnOrderBlock(items[0])] else [];
    if k >= |head| {
      OnOrderBlocksFromAwaiting(items[1..], k - |head|);
      var j :| 0 <= j < |items[1..]| && AwaitsOnOrderAlert(items[1..][j]) && OnOrderBlocks(items[1..])[k - |head|] == OnOrderBlock(items[1..][j]);
      assert items[1..][j] == items[j + 1];
    } else {
      assert OnOrderBlocks(items)[k] == OnOrderBlock(items[0]);
    }
  }

  /**
   * The blocks are exactly those of the awaiting on-order items, one each, in
   * store order: block `k` names the `k`-th awaiting item.
   */
  lemma {:induction false} OnOrderBlocksPerAwaiting(items: seq<LibraryItem>)
    ensures var awaiting := Seqs.Filter(items, AwaitsOnOrderAlert);
            && |OnOrderBlocks(items)| == |awaiting|
            && forall k :: 0 <= k < |awaiting| ==> OnOrderBlocks(items)[k] == OnOrderBlock(awaiting[k])
  {
    if items != [] {
      OnOrderBlocksPerAwaiting(items[1..]);
      var rest := Seqs.Filter(items[1..], AwaitsOnOrderAlert);
      var blocks := OnOrderBlocks(items[1..]);
      if AwaitsOnOrderAlert(items[0]) {
        assert Seqs.Filter(items, AwaitsOnOrderAlert) == [items[0]] + rest;
        assert OnOrderBlocks(items) == [OnOrderBlock(items[0])] + blocks;
      } else {
        assert Seqs.Filter(items, AwaitsOnOrderAlert) == rest;
        assert OnOrderBlocks(items) == blocks;
      }
    }
  }

  /** Every on-order item still awaiting its alert is announced. */
  lemma AwaitingIsAnnounced(items: seq<LibraryItem>, j: int)
    requires 0 <= j < |items| && AwaitsOnOrderAlert(items[j])
    ensures OnOrderBlock(items[j]) in OnOrderBlocks(items)
  {
    OnOrderBlocksPerAwaiting(items);
    var awaiting := Seqs.Filter(items, AwaitsOnOrderAlert);
    var k :| 0 <= k < |awaiting| && awaiting[k] == items[j];
    assert OnOrderBlocks(items)[k] == OnOrderBlock(items[j]);
  }

  lemma OnOrderBlocksUnfold(items: seq<LibraryItem>, j: int)
    requires 0 <= j < |items|
    ensures OnOrderBlocks(items[j..]) ==
      (if AwaitsOnOrderAlert(items[j]) then [OnOrderBlock(items[j])] else []) + OnOrderBlocks(items[j + 1..])
  {
    assert items[j..][1..] == items[j + 1..];
  }

  /** An immediate re-run of the on-order stamping yields no block. */
  lemma RestampIsSilent(items: seq<LibraryItem>, nowSec: int)
    requires nowSec != 0
    ensures OnOrderBlocks(StampOnOrder(items, nowSec)) == []
  {
  }

  /** `${type} alert!!!\n${messageText.join("\n\n")}`, sent only when there is a block. */
  function AlertMessage(t: ItemType, blocks: seq<string>): (r: Option<string>)
    ensures r.Some? <==> blocks != []
    ensures r.Some? ==> Text.StartsWith(r.value, TypeName(t) + " alert!!!\n")
  {
    if |blocks| > 0 then Some(TypeName(t) + " alert!!!\n" + Text.Join(blocks, "\n\n")) else None
  }

  /** The one aggregated alert carries every block. */
  lemma AlertMessageCarriesBlocks(t: ItemType, blocks: seq<string>, k: int)
    requires 0 <= k < |blocks|
    ensures AlertMessage(t, blocks).Some? && Text.Contains(AlertMessage(t, blocks).value, blocks[k])
  {
    var header := TypeName(t) + " alert!!!\n";
    var joined := Text.Join(blocks, "\n\n");
    Text.JoinHasPart(blocks, "\n\n", k);
    Text.ContainsSpec(joined, blocks[k]);
    var i :| Text.OccursAt(joined, blocks[k], i);
    Text.OccursInRight(header, joined, blocks[k], i);
    Text.ContainsSpec(header + joined, blocks[k]);
  }

  /** The search page's data: its `entities.bibs`, or nothing usable (the fetch failed or its script did not parse as JSON). */
  datatype PageData = Unparsable | Parsed(bibs: seq<Bib>)

  /** The availability endpoint for one bib id: its copies, or `None` when the fetch or the parse throws. */
  type Probe = string -> Option<seq<Copy>>

  function OfType(t: ItemType): LibraryItem -> bool {
    (item: LibraryItem) => item.itemType == t
  }

  function NotOfType(t: ItemType): LibraryItem -> bool {
    (item: LibraryItem) => item.itemType != t
  }

  /** Filtering keeps ids distinct. */
  lemma {:induction false} FilterKeepsUniqueIds(items: seq<LibraryItem>, p: LibraryItem -> bool)
    requires UniqueIds(items)
    ensures UniqueIds(Seqs.Filter(items, p))
  {
    if items != [] {
      FilterKeepsUniqueIds(items[1..], p);
      var rest := Seqs.Filter(items[1..], p);
      forall j | 0 <= j < |rest|
        ensures rest[j].id != items[0].id
      {
        assert rest[j] in items[1..];
      }
    }
  }

  /** The first item with an id, if it passes a filter, is still the first item with that id afterwards. */
  lemma {:induction false} FirstWithIdSurvivesFilter(items: seq<LibraryItem>, id: string, f: LibraryItem -> bool)
    requires IndexOfId(items, id).Some? && f(items[IndexOfId(items, id).value])
    ensures var r := Seqs.Filter(items, f);
            IndexOfId(r, id).Some? && r[IndexOfId(r, id).value] == items[IndexOfId(items, id).value]
  {
    var rest := Seqs.Filter(items[1..], f);
    if items[0].id != id {
      FirstWithIdSurvivesFilter(items[1..], id, f);
      if f(items[0]) {
        assert Seqs.Filter(items, f) == [items[0]] + rest;
        FirstWithIdPastHead(items[0], rest, id);
      } else {
        assert Seqs.Filter(items, f) == rest;
      }
    } else {
      assert Seqs.Filter(items, f) == [items[0]] + rest;
    }
  }

  /** A head with another id shifts the first match by one. */
  lemma FirstWithIdPastHead(head: LibraryItem, rest: seq<LibraryItem>, id: string)
    requires head.id != id && IndexOfId(rest, id).Some?
    ensures IndexOfId([head] + rest, id) == Some(IndexOfId(rest, id).value + 1)
    ensures ([head] + rest)[IndexOfId(rest, id).value + 1] == rest[IndexOfId(rest, id).value]
  {
    assert ([head] + rest)[1..] == rest;
  }

  /** The lowdb document `db.data`. */
  class Store {
    var libraryItems: seq<LibraryItem>
    var wishListItems: seq<string>

    constructor (items: seq<LibraryItem>, wishList: seq<string>)
      ensures libraryItems == items && wishListItems == wishList
    {
      libraryItems := items;
      wishListItems := wishList;
    }
  }

  /**
   * The on-order loop shared by both cycles: walks the store in order, stamps every
   * on-order item that has no notify date and collects one block for each.
   */
  method StampUnnotifiedOnOrder(store: Store, nowMs: nat) returns (blocks: seq<string>)
    modifies store
    ensures store.libraryItems == StampOnOrder(old(store.libraryItems), NowSec(nowMs))
    ensures blocks == OnOrderBlocks(old(store.libraryItems))
    ensures store.wishListItems == old(store.wishListItems)
  {
    var stamped;
    stamped, blocks := StampAwaiting(store.libraryItems, NowSec(nowMs));
    store.libraryItems := stamped;
  }

  /** The loop itself, on a copy of the list: stamp each awaiting item in turn and collect its block. */
  method StampAwaiting(items: seq<LibraryItem>, nowSec: int) returns (stamped: seq<LibraryItem>, blocks: seq<string>)
    ensures stamped == StampOnOrder(items, nowSec)
    ensures blocks == OnOrderBlocks(items)
  {
    stamped := items;
    blocks := [];
    var j := 0;
    while j < |items|
      invariant 0 <= j <= |items| == |stamped|
      invariant forall k :: 0 <= k < j ==> stamped[k] == StampIfAwaiting(items[k], nowSec)
      invariant forall k :: j <= k < |items| ==> stamped[k] == items[k]
      invariant blocks + OnOrderBlocks(items[j..]) == OnOrderBlocks(items)
    {
      OnOrderBlocksUnfold(items, j);
      var head: seq<string> := [];
      if AwaitsOnOrderAlert(stamped[j]) {
        head := [OnOrderBlock(stamped[j])];
        stamped := stamped[j := stamped[j].(notifyDate := Some(nowSec))];
      }
      Seqs.AppendAssoc(blocks, head, OnOrderBlocks(items[j + 1..]));
      blocks := blocks + head;
      j := j + 1;
    }
    assert items[j..] == [];
    assert forall k :: 0 <= k < |items| ==> stamped[k] == StampOnOrder(items, nowSec)[k];
  }
}
