/**
 * What one `refreshItems` cycle guarantees, and what it does not: the purge and
 * the partition rebuild, the id hazard of the rebuild, the branch debounce of the
 * availability pass, and the single on-order alert across cycles.
 */
module WcclsProps {
  import opened Catalog
  import opened Wccls
  import Seqs
  import Text

  /** The rebuilt store opens with the other-type survivors. */
  lemma MergeOtherAt(items: seq<LibraryItem>, titles: seq<Title>, t: ItemType, nowSec: int, j: int)
    requires 0 <= j < |Others(items, t)|
    ensures MergeTitles(items, titles, t, nowSec)[j] == Others(items, t)[j]
  {
  }

  /** Past the other-type survivors, slot `j` is the reconciled record of title `j - |o|`. */
  lemma MergeTitleAt(items: seq<LibraryItem>, titles: seq<Title>, t: ItemType, nowSec: int, j: int)
    requires |Others(items, t)| <= j < |Others(items, t)| + |titles|
    ensures MergeTitles(items, titles, t, nowSec)[j] == Reconcile(items, titles[j - |Others(items, t)|], nowSec)
  {
    var o := Others(items, t);
    var rest := ReconcileAll(items, titles, nowSec);
    assert MergeTitles(items, titles, t, nowSec) == o + rest;
    Seqs.AppendAt(o, rest, j);
    ReconcileAllAt(items, titles, nowSec, j - |o|);
  }

  lemma ReconcileAllAt(items: seq<LibraryItem>, titles: seq<Title>, nowSec: int, k: int)
    requires 0 <= k < |titles|
    ensures ReconcileAll(items, titles, nowSec)[k] == Reconcile(items, titles[k], nowSec)
  { }

  /** An unfolding of `MergedStore`'s length: the kept other-type items plus one record per bib. */
  lemma MergedSize(items: seq<LibraryItem>, bibs: seq<Bib>, t: ItemType, nowMs: nat)
    ensures |MergedStore(items, bibs, t, nowMs)| == |Others(Purge(items, NowSec(nowMs)), t)| + |bibs|
  {
  }

  /** Position `j` of the rebuilt store: an other-type survivor, or the record of bib `j - |o|`. */
  lemma MergedEntry(items: seq<LibraryItem>, bibs: seq<Bib>, t: ItemType, nowMs: nat, j: int)
    requires 0 <= j < |Others(Purge(items, NowSec(nowMs)), t)| + |bibs|
    ensures var o := Others(Purge(items, NowSec(nowMs)), t);
            var r := MergedStore(items, bibs, t, nowMs);
            && |r| == |o| + |bibs|
            && (j < |o| ==> r[j] == o[j])
            && (j >= |o| ==> j - |o| < |bibs| && r[j].id == bibs[j - |o|].id && r[j].itemType == t
                             && r[j].updateDate == NowSec(nowMs)
                             && r[j] == Reconcile(Purge(items, NowSec(nowMs)),
                                                  RefreshedTitles(bibs, t, NowSec(nowMs))[j - |o|], NowSec(nowMs)))
  {
    var nowSec := NowSec(nowMs);
    var purged := Purge(items, nowSec);
    var o := Others(purged, t);
    MergedSize(items, bibs, t, nowMs);
    if j < |o| {
      MergedOther(items, bibs, t, nowMs, j);
    } else {
      MergedBib(items, bibs, t, nowMs, j);
    }
  }

  lemma MergedOther(items: seq<LibraryItem>, bibs: seq<Bib>, t: ItemType, nowMs: nat, j: int)
    requires 0 <= j < |Others(Purge(items, NowSec(nowMs)), t)|
    ensures MergedStore(items, bibs, t, nowMs)[j] == Others(Purge(items, NowSec(nowMs)), t)[j]
  {
    var nowSec := NowSec(nowMs);
    MergedStoreUnfold(items, bibs, t, nowMs);
    MergeOtherAt(Purge(items, nowSec), RefreshedTitles(bibs, t, nowSec), t, nowSec, j);
  }

  lemma MergedBib(items: seq<LibraryItem>, bibs: seq<Bib>, t: ItemType, nowMs: nat, j: int)
    requires |Others(Purge(items, NowSec(nowMs)), t)| <= j < |Others(Purge(items, NowSec(nowMs)), t)| + |bibs|
    ensures MergedStore(items, bibs, t, nowMs)[j]
              == Reconcile(Purge(items, NowSec(nowMs)),
                           RefreshedTitles(bibs, t, NowSec(nowMs))[j - |Others(Purge(items, NowSec(nowMs)), t)|], NowSec(nowMs))
  {
    MergedStoreUnfold(items, bibs, t, nowMs);
    MergeTitleAt(Purge(items, NowSec(nowMs)), RefreshedTitles(bibs, t, NowSec(nowMs)), t, NowSec(nowMs), j);
  }

  lemma MergedStoreUnfold(items: seq<LibraryItem>, bibs: seq<Bib>, t: ItemType, nowMs: nat)
    ensures MergedStore(items, bibs, t, nowMs)
         == MergeTitles(Purge(items, NowSec(nowMs)), RefreshedTitles(bibs, t, NowSec(nowMs)), t, NowSec(nowMs))
  {
  }

  /**
   * After the purge and merge, every item of the refreshed type carries the id of
   * a bib on the page and is updated now, and the page's bibs follow the other-type
   * items one record each, in page order: stored items of that type whose id the
   * page no longer lists are gone.
   */
  lemma RebuiltFromPage(items: seq<LibraryItem>, bibs: seq<Bib>, t: ItemType, nowMs: nat)
    ensures var r := MergedStore(items, bibs, t, nowMs);
            var o := Others(Purge(items, NowSec(nowMs)), t);
            && (forall j :: 0 <= j < |r| && r[j].itemType == t ==>
                  exists k :: 0 <= k < |bibs| && r[j].id == bibs[k].id && r[j].updateDate == NowSec(nowMs))
            && |r| == |o| + |bibs|
            && (forall k :: 0 <= k < |bibs| ==> r[|o| + k].itemType == t && r[|o| + k].id == bibs[k].id)
  {
    RefreshedSlotsFromPage(items, bibs, t, nowMs);
    PageFollowsOthers(items, bibs, t, nowMs);
    MergedSize(items, bibs, t, nowMs);
  }

  lemma RefreshedSlotsFromPage(items: seq<LibraryItem>, bibs: seq<Bib>, t: ItemType, nowMs: nat)
    ensures var r := MergedStore(items, bibs, t, nowMs);
            forall j :: 0 <= j < |r| && r[j].itemType == t ==>
              exists k :: 0 <= k < |bibs| && r[j].id == bibs[k].id && r[j].updateDate == NowSec(nowMs)
  {
    var r := MergedStore(items, bibs, t, nowMs);
    forall j | 0 <= j < |r| && r[j].itemType == t
      ensures exists k :: 0 <= k < |bibs| && r[j].id == bibs[k].id && r[j].updateDate == NowSec(nowMs)
    {
      RefreshedSlotFromPage(items, bibs, t, nowMs, j);
    }
  }

  lemma PageFollowsOthers(items: seq<LibraryItem>, bibs: seq<Bib>, t: ItemType, nowMs: nat)
    ensures var r := MergedStore(items, bibs, t, nowMs);
            var o := Others(Purge(items, NowSec(nowMs)), t);
            forall k :: 0 <= k < |bibs| ==> |o| + k < |r| && r[|o| + k].itemType == t && r[|o| + k].id == bibs[k].id
  {
    forall k | 0 <= k < |bibs|
      ensures var r := MergedStore(items, bibs, t, nowMs);
              var o := Others(Purge(items, NowSec(nowMs)), t);
              |o| + k < |r| && r[|o| + k].itemType == t && r[|o| + k].id == bibs[k].id
    {
      BibSlot(items, bibs, t, nowMs, k);
    }
  }

  /** Bib `k` of the page has its record right after the other-type survivors and `k` earlier records. */
  lemma BibSlot(items: seq<LibraryItem>, bibs: seq<Bib>, t: ItemType, nowMs: nat, k: int)
    requires 0 <= k < |bibs|
    ensures var r := MergedStore(items, bibs, t, nowMs);
            var o := Others(Purge(items, NowSec(nowMs)), t);
            |o| + k < |r| && r[|o| + k].itemType == t && r[|o| + k].id == bibs[k].id
  {
    var o := Others(Purge(items, NowSec(nowMs)), t);
    MergedEntry(items, bibs, t, nowMs, |o| + k);
  }

  /** A slot of the refreshed type holds the record of some bib on the page, updated now. */
  lemma RefreshedSlotFromPage(items: seq<LibraryItem>, bibs: seq<Bib>, t: ItemType, nowMs: nat, j: int)
    requires 0 <= j < |MergedStore(items, bibs, t, nowMs)| && MergedStore(items, bibs, t, nowMs)[j].itemType == t
    ensures var r := MergedStore(items, bibs, t, nowMs);
            exists k :: 0 <= k < |bibs| && r[j].id == bibs[k].id && r[j].updateDate == NowSec(nowMs)
  {
    var r := MergedStore(items, bibs, t, nowMs);
    var o := Others(Purge(items, NowSec(nowMs)), t);
    TypedSlotPastOthers(items, bibs, t, nowMs, j);
    MergedBib(items, bibs, t, nowMs, j);
    var k := j - |o|;
    var title := RefreshedTitles(bibs, t, NowSec(nowMs))[k];
    assert title.id == bibs[k].id && title.updateDate == NowSec(nowMs);
    assert r[j].id == bibs[k].id && r[j].updateDate == NowSec(nowMs);
  }

  /** A slot of the refreshed type lies past the other-type survivors. */
  lemma TypedSlotPastOthers(items: seq<LibraryItem>, bibs: seq<Bib>, t: ItemType, nowMs: nat, j: int)
    requires 0 <= j < |MergedStore(items, bibs, t, nowMs)| && MergedStore(items, bibs, t, nowMs)[j].itemType == t
    ensures |Others(Purge(items, NowSec(nowMs)), t)| <= j < |Others(Purge(items, NowSec(nowMs)), t)| + |bibs|
  {
    MergedSize(items, bibs, t, nowMs);
    if j < |Others(Purge(items, NowSec(nowMs)), t)| {
      MergedOther(items, bibs, t, nowMs, j);
      OthersNotOfType(Purge(items, NowSec(nowMs)), t, j);
    }
  }

  /** The other-type survivors are indeed of the other type. */
  lemma OthersNotOfType(items: seq<LibraryItem>, t: ItemType, j: int)
    requires 0 <= j < |Others(items, t)|
    ensures Others(items, t)[j].itemType != t
  {
    assert NotOfType(t)(Others(items, t)[j]);
  }

  /** After the purge and merge, the items of the other type are exactly the stored ones updated within 30 days. */
  lemma OtherTypeKept(items: seq<LibraryItem>, bibs: seq<Bib>, t: ItemType, nowMs: nat)
    ensures var r := MergedStore(items, bibs, t, nowMs);
            var nowSec := NowSec(nowMs);
            && (forall j :: 0 <= j < |r| && r[j].itemType != t ==>
                  r[j] in items && r[j].updateDate > nowSec - 30 * SECONDS_PER_DAY)
            && (forall i :: (0 <= i < |items| && items[i].itemType != t
                  && items[i].updateDate > nowSec - 30 * SECONDS_PER_DAY) ==> items[i] in r)
  {
    var nowSec := NowSec(nowMs);
    var purged := Purge(items, nowSec);
    var r := MergedStore(items, bibs, t, nowMs);
    var o := Others(purged, t);
    forall j | 0 <= j < |r| && r[j].itemType != t
      ensures r[j] in items && r[j].updateDate > nowSec - 30 * SECONDS_PER_DAY
    {
      MergedEntry(items, bibs, t, nowMs, j);
      assert |r| == |o| + |bibs|;
      assert o[j] in purged;
    }
    forall i | 0 <= i < |items| && items[i].itemType != t && items[i].updateDate > nowSec - 30 * SECONDS_PER_DAY
      ensures items[i] in r
    {
      assert items[i] in purged;
      var p :| 0 <= p < |purged| && purged[p] == items[i];
      assert NotOfType(t)(purged[p]);
      assert items[i] in o;
      var q :| 0 <= q < |o| && o[q] == items[i];
      MergedEntry(items, bibs, t, nowMs, q);
    }
  }

  /**
   * The hazard of the rebuild: a stored item of the other type that survives the
   * purge and shares its id with a bib of the page stays in the store while a
   * record of the refreshed type is added for the same id.
   */
  lemma CrossTypeIdDuplicated(items: seq<LibraryItem>, bibs: seq<Bib>, t: ItemType, nowMs: nat, i: int, k: int)
    requires 0 <= i < |items| && 0 <= k < |bibs|
    requires items[i].itemType != t && items[i].updateDate > NowSec(nowMs) - 30 * SECONDS_PER_DAY
    requires items[i].id == bibs[k].id
    ensures !UniqueIds(MergedStore(items, bibs, t, nowMs))
  {
    var nowSec := NowSec(nowMs);
    var purged := Purge(items, nowSec);
    var titles := RefreshedTitles(bibs, t, nowSec);
    var o := Others(purged, t);
    assert items[i] in purged;
    var q :| 0 <= q < |purged| && purged[q] == items[i];
    assert items[i] in o;
    var p :| 0 <= p < |o| && o[p] == items[i];
    MergedEntry(items, bibs, t, nowMs, p);
    MergedEntry(items, bibs, t, nowMs, |o| + k);
  }

  /**
   * Conversely, ids stay distinct when they were distinct in the store and on the
   * page and no fresh stored item of the other type (one the purge keeps) shares
   * an id with the page; stale ones are purged first and cannot clash.
   */
  lemma UniqueWithoutCrossTypeIds(items: seq<LibraryItem>, bibs: seq<Bib>, t: ItemType, nowMs: nat)
    requires UniqueIds(items)
    requires forall k, l :: 0 <= k < l < |bibs| ==> bibs[k].id != bibs[l].id
    requires forall i, k :: 0 <= i < |items| && 0 <= k < |bibs| && items[i].itemType != t && Fresh(NowSec(nowMs))(items[i]) ==> items[i].id != bibs[k].id
    ensures UniqueIds(MergedStore(items, bibs, t, nowMs))
  {
    var nowSec := NowSec(nowMs);
    var purged := Purge(items, nowSec);
    var r := MergedStore(items, bibs, t, nowMs);
    var o := Others(purged, t);
    FilterKeepsUniqueIds(items, Fresh(nowSec));
    FilterKeepsUniqueIds(purged, NotOfType(t));
    forall p, q | 0 <= p < q < |r|
      ensures r[p].id != r[q].id
    {
      MergedEntry(items, bibs, t, nowMs, p);
      MergedEntry(items, bibs, t, nowMs, q);
      if p < |o| && q >= |o| {
        assert o[p] in purged;
        assert r[p] in items;
        var i :| 0 <= i < |items| && items[i] == r[p];
        assert Fresh(nowSec)(r[p]);
      }
    }
  }

  /** `code` is the code of a branch in the table. */
  predicate InTable(table: seq<Location>, code: int) {
    exists l :: 0 <= l < |table| && table[l].code == code
  }

  /**
   * `b` differs from `a` only in the branch entries of the table's codes: every
   * other field is the same, every new key is a table code, and the entries of
   * other codes are kept.
   */
  ghost predicate StampedOnlyAt(a: seq<LibraryItem>, b: seq<LibraryItem>, table: seq<Location>) {
    && |a| == |b|
    && (forall j :: 0 <= j < |a| ==> b[j].(availability := a[j].availability) == a[j])
    && (forall j, c :: 0 <= j < |a| && c in b[j].availability && c !in a[j].availability ==> InTable(table, c))
    && (forall j, c :: 0 <= j < |a| && c in a[j].availability && !InTable(table, c) ==>
          c in b[j].availability && b[j].availability[c] == a[j].availability[c])
  }

  lemma StampedOnlyAtTrans(a: seq<LibraryItem>, b: seq<LibraryItem>, c: seq<LibraryItem>, table: seq<Location>)
    requires StampedOnlyAt(a, b, table) && StampedOnlyAt(b, c, table)
    ensures StampedOnlyAt(a, c, table)
  {
  }

  lemma StepOnlyStampsTableBranches(s: PassState, e: TaggedCopy, wishList: seq<string>, table: seq<Location>,
                                    nowMs: nat, delay: int)
    ensures StampedOnlyAt(s.items, AvailabilityStep(s, e, wishList, table, nowMs, delay).items, table)
  {
    var r := AvailabilityStep(s, e, wishList, table, nowMs, delay);
    match FindLocation(table, e.copy.branchName)
    case None =>
    case Some(loc) =>
      assert loc in table;
      var l :| 0 <= l < |table| && table[l] == loc;
      assert InTable(table, loc.code);
  }

  /**
   * A pass over available copies changes nothing but branch entries, and only the
   * entries of branches in the locations table: a copy at any other branch is
   * ignored.
   */
  lemma {:induction false} PassOnlyStampsTableBranches(s: PassState, events: seq<TaggedCopy>, wishList: seq<string>,
                                                       table: seq<Location>, nowMs: nat, delay: int)
    ensures StampedOnlyAt(s.items, AvailabilityPass(s, events, wishList, table, nowMs, delay).items, table)
    decreases |events|
  {
    if events != [] {
      var s1 := AvailabilityStep(s, events[0], wishList, table, nowMs, delay);
      StepOnlyStampsTableBranches(s, events[0], wishList, table, nowMs, delay);
      PassOnlyStampsTableBranches(s1, events[1..], wishList, table, nowMs, delay);
      StampedOnlyAtTrans(s.items, s1.items, AvailabilityPass(s1, events[1..], wishList, table, nowMs, delay).items, table);
    }
  }

  /**
   * The wish list decides only the message blocks: the stamps and the list of
   * alerted items are the same whatever it holds.
   */
  lemma {:induction false} StampsIgnoreWishList(s1: PassState, s2: PassState, events: seq<TaggedCopy>,
                                                w1: seq<string>, w2: seq<string>, table: seq<Location>,
                                                nowMs: nat, delay: int)
    requires s1.items == s2.items && s1.alerted == s2.alerted
    ensures AvailabilityPass(s1, events, w1, table, nowMs, delay).items
            == AvailabilityPass(s2, events, w2, table, nowMs, delay).items
    ensures AvailabilityPass(s1, events, w1, table, nowMs, delay).alerted
            == AvailabilityPass(s2, events, w2, table, nowMs, delay).alerted
    decreases |events|
  {
    if events != [] {
      StampsIgnoreWishList(AvailabilityStep(s1, events[0], w1, table, nowMs, delay),
                           AvailabilityStep(s2, events[0], w2, table, nowMs, delay),
                           events[1..], w1, w2, table, nowMs, delay);
    }
  }

  /**
   * `AvailabilityStep` unfolded, with `StampBranch`'s firing test spelled out (the
   * bridge to the pass lemmas below, not itself the stale-copy property).
   * One turn of the copy loop, both ways: it fires exactly when the copy's branch
   * is in the table, a stored item carries the copy's id and that item's entry for
   * the branch is missing, zero or older than the delay. Then the first item with
   * the id is stamped now for the branch and pushed, and a block naming its title,
   * the branch and its url is added when the title matches the wish list; any
   * other turn changes nothing.
   */
  lemma AvailabilityStepFires(s: PassState, e: TaggedCopy, wishList: seq<string>, table: seq<Location>,
                              nowMs: nat, delay: int)
    ensures var r := AvailabilityStep(s, e, wishList, table, nowMs, delay);
            var loc := FindLocation(table, e.copy.branchName);
            var slot := IndexOfId(s.items, e.id);
            if loc.Some? && slot.Some? && DelayExceeded(Get(s.items[slot.value].availability, loc.value.code), nowMs, delay)
            then var item := s.items[slot.value];
                 && r.items == s.items[slot.value := item.(availability := item.availability[loc.value.code := BranchStamp(NowSec(nowMs), loc.value.name)])]
                 && r.alerted == s.alerted + [slot.value]
                 && r.blocks == s.blocks + (if TitleMatchesWishList(item.title, wishList)
                                            then [AvailableBlock(item.title, loc.value.name, item.url)] else [])
            else r == s
  {
  }

  /** A pass only appends to the pushed slots and to the blocks. */
  lemma {:induction false} PassExtends(s: PassState, events: seq<TaggedCopy>, wishList: seq<string>,
                                       table: seq<Location>, nowMs: nat, delay: int)
    ensures var r := AvailabilityPass(s, events, wishList, table, nowMs, delay);
            && |s.alerted| <= |r.alerted| && r.alerted[..|s.alerted|] == s.alerted
            && |s.blocks| <= |r.blocks| && r.blocks[..|s.blocks|] == s.blocks
    decreases |events|
  {
    if events != [] {
      var s1 := AvailabilityStep(s, events[0], wishList, table, nowMs, delay);
      var r := AvailabilityPass(s1, events[1..], wishList, table, nowMs, delay);
      AvailabilityStepFires(s, events[0], wishList, table, nowMs, delay);
      PassExtends(s1, events[1..], wishList, table, nowMs, delay);
      assert r.alerted[..|s.alerted|] == r.alerted[..|s1.alerted|][..|s.alerted|];
      assert r.blocks[..|s.blocks|] == r.blocks[..|s1.blocks|][..|s.blocks|];
    }
  }

  /**
   * Every copy at a table branch of a stored title whose entry for that branch is
   * stale when the pass starts gets the title pushed: either that copy's turn
   * fires, or an earlier copy of the same title at the same branch already did.
   */
  lemma {:induction false} PassPushesStale(s: PassState, events: seq<TaggedCopy>, wishList: seq<string>,
                                           table: seq<Location>, nowMs: nat, delay: int, n: int)
    requires 0 <= n < |events|
    requires FindLocation(table, events[n].copy.branchName).Some? && IndexOfId(s.items, events[n].id).Some?
    requires DelayExceeded(Get(s.items[IndexOfId(s.items, events[n].id).value].availability,
                               FindLocation(table, events[n].copy.branchName).value.code), nowMs, delay)
    ensures var r := AvailabilityPass(s, events, wishList, table, nowMs, delay);
            |s.alerted| <= |r.alerted| && IndexOfId(s.items, events[n].id).value in r.alerted[|s.alerted|..]
    decreases |events|
  {
    var i := IndexOfId(s.items, events[n].id).value;
    var s1 := AvailabilityStep(s, events[0], wishList, table, nowMs, delay);
    var r := AvailabilityPass(s1, events[1..], wishList, table, nowMs, delay);
    PassExtends(s1, events[1..], wishList, table, nowMs, delay);
    StepPushesOrKeeps(s, events[0], wishList, table, nowMs, delay, i);
    if n == 0 {
      AvailabilityStepFires(s, events[0], wishList, table, nowMs, delay);
    }
    if s1.alerted == s.alerted + [i] {
      assert r.alerted[|s.alerted|] == r.alerted[..|s1.alerted|][|s.alerted|] == i;
    } else {
      SameIdsSameIndex(s.items, s1.items, events[n].id);
      assert events[1..][n - 1] == events[n];
      PassPushesStale(s1, events[1..], wishList, table, nowMs, delay, n - 1);
      Seqs.SuffixMember(r.alerted, |s.alerted|, |s1.alerted|, i);
    }
  }

  /** One turn either pushes slot `i` or leaves it as it was; it keeps every id in place. */
  lemma StepPushesOrKeeps(s: PassState, e: TaggedCopy, wishList: seq<string>, table: seq<Location>,
                          nowMs: nat, delay: int, i: int)
    requires 0 <= i < |s.items|
    ensures var s1 := AvailabilityStep(s, e, wishList, table, nowMs, delay);
            && SameIds(s.items, s1.items)
            && |s.alerted| <= |s1.alerted|
            && (s1.alerted == s.alerted + [i] || s1.items[i] == s.items[i])
  {
    AvailabilityStepFires(s, e, wishList, table, nowMs, delay);
  }

  /** Each slot's title and url: what a message block names, and what a pass never changes. */
  function Headings(items: seq<LibraryItem>): (r: seq<(string, string)>)
    ensures |r| == |items|
  {
    seq(|items|, k requires 0 <= k < |items| => (items[k].title, items[k].url))
  }

  /** The slots holding a title that matches the wish list. */
  function WishSlot(heads: seq<(string, string)>, wishList: seq<string>): nat -> bool {
    (i: nat) => i < |heads| && TitleMatchesWishList(heads[i].0, wishList)
  }

  /** A block naming the title and url of `head` and a branch of the table. */
  ghost predicate HeadingBlock(block: string, head: (string, string), table: seq<Location>) {
    exists loc :: loc in table && block == AvailableBlock(head.0, loc.name, head.1)
  }

  lemma StepKeepsHeadings(s: PassState, e: TaggedCopy, wishList: seq<string>, table: seq<Location>,
                          nowMs: nat, delay: int)
    ensures Headings(AvailabilityStep(s, e, wishList, table, nowMs, delay).items) == Headings(s.items)
  {
    var r := AvailabilityStep(s, e, wishList, table, nowMs, delay);
    AvailabilityStepFires(s, e, wishList, table, nowMs, delay);
    assert forall j :: 0 <= j < |s.items| ==> Headings(r.items)[j] == Headings(s.items)[j];
  }

  /**
   * From pushes `a` to `a2` and blocks `b` to `b2`: one block per newly pushed slot
   * whose title matches the wish list, in push order, each naming that slot's
   * title and url and a branch of the table.
   */
  ghost predicate PerWish(a: seq<nat>, a2: seq<nat>, b: seq<string>, b2: seq<string>,
                          heads: seq<(string, string)>, wishList: seq<string>, table: seq<Location>) {
    && |a| <= |a2| && |b| <= |b2|
    && var wished := Seqs.Filter(a2[|a|..], WishSlot(heads, wishList));
       && |b2| == |b| + |wished|
       && forall k :: 0 <= k < |wished| ==> HeadingBlock(b2[|b| + k], heads[wished[k]], table)
  }

  /** Two stretches that each add one block per wish-matched push make one such stretch. */
  lemma ComposePerWish(a: seq<nat>, a1: seq<nat>, a2: seq<nat>, b: seq<string>, b1: seq<string>, b2: seq<string>,
                       heads: seq<(string, string)>, wishList: seq<string>, table: seq<Location>)
    requires |a1| <= |a2| && a2[..|a1|] == a1 && |b1| <= |b2| && b2[..|b1|] == b1
    requires PerWish(a, a1, b, b1, heads, wishList, table)
    requires PerWish(a1, a2, b1, b2, heads, wishList, table)
    ensures PerWish(a, a2, b, b2, heads, wishList, table)
  {
    var p := WishSlot(heads, wishList);
    var d := a1[|a|..];
    var later := a2[|a1|..];
    assert a2[|a|..] == d + later;
    Seqs.FilterAppend(d, later, p);
    var wd := Seqs.Filter(d, p);
    var wl := Seqs.Filter(later, p);
    var wished := Seqs.Filter(a2[|a|..], p);
    forall k | 0 <= k < |wished|
      ensures HeadingBlock(b2[|b| + k], heads[wished[k]], table)
    {
      if k < |wd| {
        assert b2[|b| + k] == b2[..|b1|][|b| + k] == b1[|b| + k];
        assert wished[k] == wd[k];
      } else {
        assert wished[k] == wl[k - |wd|];
        assert b2[|b| + k] == b2[|b1| + (k - |wd|)];
      }
    }
  }

  /**
   * The blocks of a pass are one per pushed slot whose title matches the wish
   * list, in push order, each naming that slot's title and url and a branch of the
   * table; titles and urls are left as they were.
   */
  lemma {:induction false} PassBlocksPerWishPush(s: PassState, events: seq<TaggedCopy>, wishList: seq<string>,
                                                 table: seq<Location>, nowMs: nat, delay: int)
    ensures var r := AvailabilityPass(s, events, wishList, table, nowMs, delay);
            && Headings(r.items) == Headings(s.items)
            && PerWish(s.alerted, r.alerted, s.blocks, r.blocks, Headings(s.items), wishList, table)
    decreases |events|
  {
    if events == [] {
      assert s.alerted[|s.alerted|..] == [];
    } else {
      var s1 := AvailabilityStep(s, events[0], wishList, table, nowMs, delay);
      var r := AvailabilityPass(s1, events[1..], wishList, table, nowMs, delay);
      StepKeepsHeadings(s, events[0], wishList, table, nowMs, delay);
      StepBlocks(s, events[0], wishList, table, nowMs, delay);
      PassBlocksPerWishPush(s1, events[1..], wishList, table, nowMs, delay);
      PassExtends(s1, events[1..], wishList, table, nowMs, delay);
      ComposePerWish(s.alerted, s1.alerted, r.alerted, s.blocks, s1.blocks, r.blocks, Headings(s.items), wishList, table);
    }
  }

  /** The blocks of one turn: one for its push when the pushed title matches the wish list. */
  lemma StepBlocks(s: PassState, e: TaggedCopy, wishList: seq<string>, table: seq<Location>, nowMs: nat, delay: int)
    ensures var s1 := AvailabilityStep(s, e, wishList, table, nowMs, delay);
            PerWish(s.alerted, s1.alerted, s.blocks, s1.blocks, Headings(s.items), wishList, table)
  {
    var s1 := AvailabilityStep(s, e, wishList, table, nowMs, delay);
    var h := Headings(s.items);
    AvailabilityStepFires(s, e, wishList, table, nowMs, delay);
    var d := s1.alerted[|s.alerted|..];
    if d == [] {
      assert Seqs.Filter(d, WishSlot(h, wishList)) == [];
    } else {
      var i := d[0];
      assert d == [i];
      assert d[1..] == [];
      assert Seqs.Filter(d, WishSlot(h, wishList)) == (if WishSlot(h, wishList)(i) then [i] else []) + Seqs.Filter(d[1..], WishSlot(h, wishList));
    }
  }

  /** A block naming a stored title that matches the wish list, at a branch of the table. */
  ghost predicate WishBlock(block: string, items: seq<LibraryItem>, wishList: seq<string>, table: seq<Location>) {
    exists j :: 0 <= j < |items| && TitleMatchesWishList(items[j].title, wishList)
                && HeadingBlock(block, (items[j].title, items[j].url), table)
  }

  /**
   * A pass only appends blocks, and each block it appends names a stored title
   * matching the wish list, its url and a branch of the table; with an empty wish
   * list it appends none.
   */
  lemma BlocksNeedWishMatch(s: PassState, events: seq<TaggedCopy>, wishList: seq<string>,
                            table: seq<Location>, nowMs: nat, delay: int)
    ensures var r := AvailabilityPass(s, events, wishList, table, nowMs, delay);
            && |s.blocks| <= |r.blocks| && r.blocks[..|s.blocks|] == s.blocks
            && (forall k :: |s.blocks| <= k < |r.blocks| ==> WishBlock(r.blocks[k], s.items, wishList, table))
            && (wishList == [] ==> r.blocks == s.blocks)
  {
    var r := AvailabilityPass(s, events, wishList, table, nowMs, delay);
    var h := Headings(s.items);
    PassExtends(s, events, wishList, table, nowMs, delay);
    PassBlocksPerWishPush(s, events, wishList, table, nowMs, delay);
    var wished := Seqs.Filter(r.alerted[|s.alerted|..], WishSlot(h, wishList));
    forall k | |s.blocks| <= k < |r.blocks|
      ensures WishBlock(r.blocks[k], s.items, wishList, table)
    {
      var j := wished[k - |s.blocks|];
      assert WishSlot(h, wishList)(j);
      assert h[j] == (s.items[j].title, s.items[j].url);
    }
    if wishList == [] {
      Seqs.FilterNone(r.alerted[|s.alerted|..], WishSlot(h, wishList));
      assert r.blocks == r.blocks[..|s.blocks|];
    }
  }

  /**
   * A worked case: a stored title "Dune" never announced anywhere, one available
   * copy at the Tigard branch and the wish-list phrase "dune" give one push, one
   * block naming the title, the branch and the url, and a message carrying it.
   */
  lemma WishedCopyAlerts(nowMs: nat, delay: int)
    ensures var item := LibraryItem("b1", AvailableNow, "Dune", Details("", "", "", "", "", None), "u",
                                    0, 0, None, map[]);
            var e := TaggedCopy("b1", Copy("AVAILABLE", "", "", "Tigard Public Library"));
            var r := AvailabilityPass(PassState([item], [], []), [e], ["dune"], CONFIG_LOCATIONS, nowMs, delay);
            && r.alerted == [0]
            && r.blocks == [AvailableBlock("Dune", "Tigard Public Library", "u")]
            && r.items[0].availability == map[29 := BranchStamp(NowSec(nowMs), "Tigard Public Library")]
            && AlertMessage(AvailableNow, r.blocks).Some?
  {
    assert Text.Lower("Dune") == "dune" == Text.Lower("dune");
    assert TitleMatchesWishList("Dune", ["dune"]) by {
      assert Text.Contains(Text.Lower("Dune"), Text.Lower(["dune"][0]));
    }
    var item := LibraryItem("b1", AvailableNow, "Dune", Details("", "", "", "", "", None), "u", 0, 0, None, map[]);
    var e := TaggedCopy("b1", Copy("AVAILABLE", "", "", "Tigard Public Library"));
    var s := PassState([item], [], []);
    assert FindLocation(CONFIG_LOCATIONS, "Tigard Public Library") == Some(Location(29, "Tigard Public Library"));
    assert IndexOfId([item], "b1") == Some(0);
    assert DelayExceeded(Get(item.availability, 29), nowMs, delay);
    AvailabilityStepFires(s, e, ["dune"], CONFIG_LOCATIONS, nowMs, delay);
    var s1 := AvailabilityStep(s, e, ["dune"], CONFIG_LOCATIONS, nowMs, delay);
    assert [e][1..] == [];
    assert AvailabilityPass(s, [e], ["dune"], CONFIG_LOCATIONS, nowMs, delay)
           == AvailabilityPass(s1, [], ["dune"], CONFIG_LOCATIONS, nowMs, delay);
  }

  lemma SettledStepIsSilent(s: PassState, e: TaggedCopy, wishList: seq<string>, table: seq<Location>,
                            nowMs: nat, delay: int)
    requires Settled(s.items, e.id, e.copy.branchName, table, nowMs, delay)
    ensures AvailabilityStep(s, e, wishList, table, nowMs, delay) == s
  {
  }

  lemma StepSettles(s: PassState, e: TaggedCopy, e2: TaggedCopy, wishList: seq<string>, table: seq<Location>,
                    nowMs: nat, delay: int)
    requires nowMs >= 1000 && nowMs % 1000 <= delay
    requires Settled(s.items, e2.id, e2.copy.branchName, table, nowMs, delay)
    ensures Settled(AvailabilityStep(s, e, wishList, table, nowMs, delay).items, e2.id, e2.copy.branchName,
                    table, nowMs, delay)
  {
    match FindLocation(table, e.copy.branchName)
    case None =>
    case Some(loc) =>
      match IndexOfId(s.items, e.id)
      case None =>
      case Some(i) =>
        StampKeepsSettled(s.items, i, loc, nowMs, delay, e2.id, e2.copy.branchName, table);
  }

  lemma StepSettlesOwn(s: PassState, e: TaggedCopy, wishList: seq<string>, table: seq<Location>,
                       nowMs: nat, delay: int)
    requires nowMs >= 1000 && nowMs % 1000 <= delay
    ensures Settled(AvailabilityStep(s, e, wishList, table, nowMs, delay).items, e.id, e.copy.branchName,
                    table, nowMs, delay)
  {
    match FindLocation(table, e.copy.branchName)
    case None =>
    case Some(loc) =>
      match IndexOfId(s.items, e.id)
      case None =>
      case Some(i) =>
        StampSettlesOwn(s.items, i, loc, nowMs, delay, e.id, e.copy.branchName, table);
  }

  lemma {:induction false} PassKeepsSettled(s: PassState, events: seq<TaggedCopy>, e2: TaggedCopy,
                                            wishList: seq<string>, table: seq<Location>, nowMs: nat, delay: int)
    requires nowMs >= 1000 && nowMs % 1000 <= delay
    requires Settled(s.items, e2.id, e2.copy.branchName, table, nowMs, delay)
    ensures Settled(AvailabilityPass(s, events, wishList, table, nowMs, delay).items, e2.id, e2.copy.branchName, table, nowMs, delay)
    decreases |events|
  {
    if events != [] {
      StepSettles(s, events[0], e2, wishList, table, nowMs, delay);
      PassKeepsSettled(AvailabilityStep(s, events[0], wishList, table, nowMs, delay), events[1..], e2,
                       wishList, table, nowMs, delay);
    }
  }

  /** After a pass, every copy it checked is settled. */
  lemma {:induction false} PassSettlesAll(s: PassState, events: seq<TaggedCopy>, wishList: seq<string>,
                                          table: seq<Location>, nowMs: nat, delay: int)
    requires nowMs >= 1000 && nowMs % 1000 <= delay
    ensures forall m :: 0 <= m < |events| ==>
              Settled(AvailabilityPass(s, events, wishList, table, nowMs, delay).items, events[m].id, events[m].copy.branchName,
                      table, nowMs, delay)
    decreases |events|
  {
    if events != [] {
      var s1 := AvailabilityStep(s, events[0], wishList, table, nowMs, delay);
      var r := AvailabilityPass(s, events, wishList, table, nowMs, delay);
      PassSettlesAll(s1, events[1..], wishList, table, nowMs, delay);
      forall m | 0 <= m < |events|
        ensures Settled(r.items, events[m].id, events[m].copy.branchName, table, nowMs, delay)
      {
        if m == 0 {
          StepSettlesOwn(s, events[0], wishList, table, nowMs, delay);
          PassKeepsSettled(s1, events[1..], events[0], wishList, table, nowMs, delay);
        } else {
          assert events[m] == events[1..][m - 1];
        }
      }
    }
  }

  lemma {:induction false} SettledPassIsSilent(s: PassState, events: seq<TaggedCopy>, wishList: seq<string>,
                                               table: seq<Location>, nowMs: nat, delay: int)
    requires forall m :: 0 <= m < |events| ==> Settled(s.items, events[m].id, events[m].copy.branchName, table, nowMs, delay)
    ensures AvailabilityPass(s, events, wishList, table, nowMs, delay) == s
    decreases |events|
  {
    if events != [] {
      SettledStepIsSilent(s, events[0], wishList, table, nowMs, delay);
      SettledPassIsSilent(s, events[1..], wishList, table, nowMs, delay);
    }
  }

  /**
   * Debounce within a run: repeating a pass over the same copies at the same
   * instant fires nothing, stamps nothing and adds no block, provided the instant
   * is past the first second of the epoch and its sub-second part (lost when the
   * stamp is truncated to seconds) is within the delay.
   */
  lemma RepeatPassIsSilent(s: PassState, events: seq<TaggedCopy>, wishList: seq<string>,
                           table: seq<Location>, nowMs: nat, delay: int)
    requires nowMs >= 1000 && nowMs % 1000 <= delay
    ensures var r := AvailabilityPass(s, events, wishList, table, nowMs, delay);
            AvailabilityPass(r, events, wishList, table, nowMs, delay) == r
  {
    var r := AvailabilityPass(s, events, wishList, table, nowMs, delay);
    PassSettlesAll(s, events, wishList, table, nowMs, delay);
    SettledPassIsSilent(r, events, wishList, table, nowMs, delay);
  }

  /**
   * An unfolding of `WriteOne`: overwriting the first slot with the title's id keeps
   * every slot's id (the building block of the write-back lemmas below).
   */
  lemma WriteOneSameIds(items: seq<LibraryItem>, title: LibraryItem)
    ensures SameIds(items, WriteOne(items, title))
  {
  }

  /** A slot whose id no title carries is left alone by the write-back. */
  lemma {:induction false} WriteBackUnchangedSlot(items: seq<LibraryItem>, titles: seq<LibraryItem>, j: int)
    requires 0 <= j < |items|
    requires forall m :: 0 <= m < |titles| ==> titles[m].id != items[j].id
    ensures j < |WriteBack(items, titles)| && WriteBack(items, titles)[j] == items[j]
    decreases |titles|
  {
    if titles != [] {
      var w := WriteOne(items, titles[0]);
      WriteOneSameIds(items, titles[0]);
      assert w[j] == items[j];
      WriteBackUnchangedSlot(w, titles[1..], j);
    }
  }

  /** Every slot after the write-back holds what it held before or one of the titles. */
  lemma {:induction false} WriteBackFrom(items: seq<LibraryItem>, titles: seq<LibraryItem>, j: int)
    requires 0 <= j < |items|
    ensures j < |WriteBack(items, titles)|
    ensures WriteBack(items, titles)[j] == items[j] || WriteBack(items, titles)[j] in titles
    decreases |titles|
  {
    if titles != [] {
      var w := WriteOne(items, titles[0]);
      WriteOneSameIds(items, titles[0]);
      WriteBackFrom(w, titles[1..], j);
    }
  }

  /**
   * The slot `findIndex` picks for a title's id (the first item with that id) ends
   * up holding one of the titles, whatever the slot held before.
   */
  lemma {:induction false} WriteBackFirstSlot(items: seq<LibraryItem>, titles: seq<LibraryItem>, m: int)
    requires 0 <= m < |titles|
    requires IndexOfId(items, titles[m].id).Some?
    ensures var p := IndexOfId(items, titles[m].id).value;
            p < |WriteBack(items, titles)| && WriteBack(items, titles)[p] in titles
    decreases |titles|
  {
    var w := WriteOne(items, titles[0]);
    var id := titles[m].id;
    WriteOneSameIds(items, titles[0]);
    SameIdsSameIndex(items, w, id);
    var p := IndexOfId(items, id).value;
    if n :| 1 <= n < |titles| && titles[n].id == id {
      assert titles[1..][n - 1] == titles[n];
      WriteBackFirstSlot(w, titles[1..], n - 1);
    } else {
      assert m == 0;
      assert w[p] == titles[0];
      WriteBackUnchangedSlot(w, titles[1..], p);
    }
  }

  /** With distinct ids, writing back items of the store itself changes nothing. */
  lemma {:induction false} WriteBackIdentityWhenUnique(items: seq<LibraryItem>, titles: seq<LibraryItem>)
    requires UniqueIds(items)
    requires forall m :: 0 <= m < |titles| ==> titles[m] in items
    ensures WriteBack(items, titles) == items
    decreases |titles|
  {
    if titles != [] {
      var i :| 0 <= i < |items| && items[i] == titles[0];
      assert IndexOfId(items, titles[0].id) == Some(i);
      assert WriteOne(items, titles[0]) == items;
      WriteBackIdentityWhenUnique(items, titles[1..]);
    }
  }

  /** The on-order titles of a cycle: the on-order items of the stamped store. */
  function OnOrderTitles(items: seq<LibraryItem>, bibs: seq<Bib>, nowMs: nat): seq<LibraryItem> {
    Seqs.Filter(StampOnOrder(MergedStore(items, bibs, OnOrder, nowMs), NowSec(nowMs)), OfType(OnOrder))
  }

  /**
   * After an on-order cycle (past the first second of the epoch), every on-order
   * title has been announced and was updated at this cycle.
   */
  lemma OnOrderTitlesNotified(items: seq<LibraryItem>, bibs: seq<Bib>, nowMs: nat, n: int)
    requires nowMs >= 1000
    requires 0 <= n < |OnOrderTitles(items, bibs, nowMs)|
    ensures var x := OnOrderTitles(items, bibs, nowMs)[n];
            x.itemType == OnOrder && Notified(x) && x.updateDate == NowSec(nowMs)
  {
    var merged := MergedStore(items, bibs, OnOrder, nowMs);
    var stamped := StampOnOrder(merged, NowSec(nowMs));
    var x := OnOrderTitles(items, bibs, nowMs)[n];
    assert x in stamped;
    var j :| 0 <= j < |stamped| && stamped[j] == x;
    MergedSize(items, bibs, OnOrder, nowMs);
    MergedEntry(items, bibs, OnOrder, nowMs, j);
    assert !AwaitsOnOrderAlert(stamped[j]);
  }

  /**
   * After an on-order cycle, the first item holding the id of a bib of the page is
   * one of the cycle's on-order titles.
   */
  lemma OnOrderFirstSlot(items: seq<LibraryItem>, bibs: seq<Bib>, nowMs: nat, m: int)
    requires 0 <= m < |bibs|
    ensures var store := WriteBack(StampOnOrder(MergedStore(items, bibs, OnOrder, nowMs), NowSec(nowMs)),
                                   OnOrderTitles(items, bibs, nowMs));
            IndexOfId(store, bibs[m].id).Some? && store[IndexOfId(store, bibs[m].id).value] in OnOrderTitles(items, bibs, nowMs)
  {
    var stamped := StampOnOrder(MergedStore(items, bibs, OnOrder, nowMs), NowSec(nowMs));
    var titles := OnOrderTitles(items, bibs, nowMs);
    var n := BibTitle(items, bibs, nowMs, m);
    WriteBackFirstSlot(stamped, titles, n);
    SameIdsSameIndex(stamped, WriteBack(stamped, titles), bibs[m].id);
  }

  /** Bib `m` of the page has an on-order title with its id, and that id is in the stamped store. */
  lemma BibTitle(items: seq<LibraryItem>, bibs: seq<Bib>, nowMs: nat, m: int) returns (n: int)
    requires 0 <= m < |bibs|
    ensures var titles := OnOrderTitles(items, bibs, nowMs);
            0 <= n < |titles| && titles[n].id == bibs[m].id
            && IndexOfId(StampOnOrder(MergedStore(items, bibs, OnOrder, nowMs), NowSec(nowMs)), bibs[m].id).Some?
  {
    var stamped := StampOnOrder(MergedStore(items, bibs, OnOrder, nowMs), NowSec(nowMs));
    var titles := OnOrderTitles(items, bibs, nowMs);
    var merged := MergedStore(items, bibs, OnOrder, nowMs);
    var j := |Others(Purge(items, NowSec(nowMs)), OnOrder)| + m;
    MergedEntry(items, bibs, OnOrder, nowMs, j);
    assert merged[j].id == bibs[m].id && merged[j].itemType == OnOrder;
    assert stamped[j].(notifyDate := merged[j].notifyDate) == merged[j];
    assert OfType(OnOrder)(stamped[j]);
    assert stamped[j] in titles;
    n :| 0 <= n < |titles| && titles[n] == stamped[j];
  }

  /** In a second on-order cycle, the record rebuilt for an id the first cycle announced is still announced. */
  lemma SecondCycleEntryQuiet(items: seq<LibraryItem>, bibs1: seq<Bib>, bibs2: seq<Bib>, nowMs1: nat, nowMs2: nat, j: int)
    requires nowMs1 >= 1000
    requires NowSec(nowMs2) - 30 * SECONDS_PER_DAY < NowSec(nowMs1)
    requires IdsListedIn(bibs2, bibs1)
    requires var store1 := WriteBack(StampOnOrder(MergedStore(items, bibs1, OnOrder, nowMs1), NowSec(nowMs1)),
                                     OnOrderTitles(items, bibs1, nowMs1));
             0 <= j < |MergedStore(store1, bibs2, OnOrder, nowMs2)|
    ensures var store1 := WriteBack(StampOnOrder(MergedStore(items, bibs1, OnOrder, nowMs1), NowSec(nowMs1)),
                                    OnOrderTitles(items, bibs1, nowMs1));
            !AwaitsOnOrderAlert(MergedStore(store1, bibs2, OnOrder, nowMs2)[j])
  {
    var store1 := WriteBack(StampOnOrder(MergedStore(items, bibs1, OnOrder, nowMs1), NowSec(nowMs1)),
                            OnOrderTitles(items, bibs1, nowMs1));
    var o2 := Others(Purge(store1, NowSec(nowMs2)), OnOrder);
    MergedSize(store1, bibs2, OnOrder, nowMs2);
    if j < |o2| {
      MergedOther(store1, bibs2, OnOrder, nowMs2, j);
      OthersNotOfType(Purge(store1, NowSec(nowMs2)), OnOrder, j);
    } else {
      SecondCycleBibQuiet(items, bibs1, bibs2, nowMs1, nowMs2, j);
    }
  }

  /** The second cycle's record for a page bib inherits the notify date of the record the first cycle announced. */
  lemma SecondCycleBibQuiet(items: seq<LibraryItem>, bibs1: seq<Bib>, bibs2: seq<Bib>, nowMs1: nat, nowMs2: nat, j: int)
    requires nowMs1 >= 1000
    requires NowSec(nowMs2) - 30 * SECONDS_PER_DAY < NowSec(nowMs1)
    requires IdsListedIn(bibs2, bibs1)
    requires var store1 := WriteBack(StampOnOrder(MergedStore(items, bibs1, OnOrder, nowMs1), NowSec(nowMs1)),
                                     OnOrderTitles(items, bibs1, nowMs1));
             var o2 := Others(Purge(store1, NowSec(nowMs2)), OnOrder);
             |o2| <= j < |o2| + |bibs2|
    ensures var store1 := WriteBack(StampOnOrder(MergedStore(items, bibs1, OnOrder, nowMs1), NowSec(nowMs1)),
                                    OnOrderTitles(items, bibs1, nowMs1));
            j < |MergedStore(store1, bibs2, OnOrder, nowMs2)| && !AwaitsOnOrderAlert(MergedStore(store1, bibs2, OnOrder, nowMs2)[j])
  {
    var store1 := WriteBack(StampOnOrder(MergedStore(items, bibs1, OnOrder, nowMs1), NowSec(nowMs1)),
                            OnOrderTitles(items, bibs1, nowMs1));
    var o2 := Others(Purge(store1, NowSec(nowMs2)), OnOrder);
    MergedEntry(store1, bibs2, OnOrder, nowMs2, j);
    var k := j - |o2|;
    var m :| 0 <= m < |bibs1| && bibs2[k].id == bibs1[m].id;
    FirstCycleAnnounced(items, bibs1, nowMs1, m);
    PurgedFirstSlot(store1, bibs1[m].id, NowSec(nowMs2));
  }

  /** After an on-order cycle, the first slot holding a page id is notified and updated now. */
  lemma FirstCycleAnnounced(items: seq<LibraryItem>, bibs: seq<Bib>, nowMs: nat, m: int)
    requires nowMs >= 1000 && 0 <= m < |bibs|
    ensures var store := WriteBack(StampOnOrder(MergedStore(items, bibs, OnOrder, nowMs), NowSec(nowMs)),
                                   OnOrderTitles(items, bibs, nowMs));
            var p := IndexOfId(store, bibs[m].id);
            p.Some? && Notified(store[p.value]) && store[p.value].updateDate == NowSec(nowMs)
  {
    var titles := OnOrderTitles(items, bibs, nowMs);
    var store := WriteBack(StampOnOrder(MergedStore(items, bibs, OnOrder, nowMs), NowSec(nowMs)), titles);
    OnOrderFirstSlot(items, bibs, nowMs, m);
    var p := IndexOfId(store, bibs[m].id).value;
    var n :| 0 <= n < |titles| && titles[n] == store[p];
    OnOrderTitlesNotified(items, bibs, nowMs, n);
  }

  /** The first slot holding an id, when it survives the purge, is still the first slot holding it. */
  lemma PurgedFirstSlot(store: seq<LibraryItem>, id: string, nowSec: int)
    requires IndexOfId(store, id).Some? && store[IndexOfId(store, id).value].updateDate > nowSec - 30 * SECONDS_PER_DAY
    ensures var purged := Purge(store, nowSec);
            IndexOfId(purged, id).Some? && purged[IndexOfId(purged, id).value] == store[IndexOfId(store, id).value]
  {
    assert Fresh(nowSec)(store[IndexOfId(store, id).value]);
    FirstWithIdSurvivesFilter(store, id, Fresh(nowSec));
  }

  /**
   * An on-order title is announced once: a second on-order cycle, run within 30
   * days of the first (so the announced records survive its purge) on a page that
   * lists no id the first page did not, composes no alert.
   */
  lemma OnOrderSingleFire(items: seq<LibraryItem>, wishList: seq<string>, bibs1: seq<Bib>, bibs2: seq<Bib>,
                          probe: Probe, nowMs1: nat, nowMs2: nat, delay: int)
    requires nowMs1 >= 1000
    requires NowSec(nowMs2) - 30 * SECONDS_PER_DAY < NowSec(nowMs1)
    requires IdsListedIn(bibs2, bibs1)
    ensures var first := RefreshCycle(items, wishList, Parsed(bibs1), OnOrder, probe, nowMs1, delay);
            var second := RefreshCycle(first.0, wishList, Parsed(bibs2), OnOrder, probe, nowMs2, delay);
            second.1.Done? && second.1.notification == None
  {
    var store1 := RefreshCycle(items, wishList, Parsed(bibs1), OnOrder, probe, nowMs1, delay).0;
    assert store1 == WriteBack(StampOnOrder(MergedStore(items, bibs1, OnOrder, nowMs1), NowSec(nowMs1)),
                               OnOrderTitles(items, bibs1, nowMs1));
    var merged2 := MergedStore(store1, bibs2, OnOrder, nowMs2);
    forall j | 0 <= j < |merged2|
      ensures !AwaitsOnOrderAlert(merged2[j])
    {
      SecondCycleEntryQuiet(items, bibs1, bibs2, nowMs1, nowMs2, j);
    }
  }

  /** A slot of the on-order store that holds the id of bib `k` holds an on-order record. */
  lemma OnOrderSlotOfBib(items: seq<LibraryItem>, bibs: seq<Bib>, nowMs: nat, k: int, j: int)
    requires UniqueIds(items)
    requires 0 <= k < |bibs|
    requires var r := WriteBack(StampOnOrder(MergedStore(items, bibs, OnOrder, nowMs), NowSec(nowMs)),
                                OnOrderTitles(items, bibs, nowMs));
             0 <= j < |r| && r[j].id == bibs[k].id
    ensures WriteBack(StampOnOrder(MergedStore(items, bibs, OnOrder, nowMs), NowSec(nowMs)),
                      OnOrderTitles(items, bibs, nowMs))[j].itemType == OnOrder
  {
    var nowSec := NowSec(nowMs);
    var stamped := StampOnOrder(MergedStore(items, bibs, OnOrder, nowMs), nowSec);
    var titles := OnOrderTitles(items, bibs, nowMs);
    var r := WriteBack(stamped, titles);
    var id := bibs[k].id;
    var o := Others(Purge(items, nowSec), OnOrder);
    MergedSize(items, bibs, OnOrder, nowMs);
    WriteBackFrom(stamped, titles, j);
    MergedEntry(items, bibs, OnOrder, nowMs, j);
    if r[j] !in titles && j < |o| {
      KeptSlotIsFirst(items, bibs, nowMs, j);
      OnOrderFirstSlot(items, bibs, nowMs, k);
      SameIdsSameIndex(stamped, r, id);
    }
  }

  /** On a store with unique ids, a kept other-type slot of the stamped store is the first slot with its id. */
  lemma KeptSlotIsFirst(items: seq<LibraryItem>, bibs: seq<Bib>, nowMs: nat, j: int)
    requires UniqueIds(items)
    requires 0 <= j < |Others(Purge(items, NowSec(nowMs)), OnOrder)|
    ensures var stamped := StampOnOrder(MergedStore(items, bibs, OnOrder, nowMs), NowSec(nowMs));
            j < |stamped| && IndexOfId(stamped, stamped[j].id) == Some(j)
  {
    var nowSec := NowSec(nowMs);
    var stamped := StampOnOrder(MergedStore(items, bibs, OnOrder, nowMs), nowSec);
    var o := Others(Purge(items, nowSec), OnOrder);
    MergedSize(items, bibs, OnOrder, nowMs);
    MergedEntry(items, bibs, OnOrder, nowMs, j);
    FilterKeepsUniqueIds(items, Fresh(nowSec));
    FilterKeepsUniqueIds(Purge(items, nowSec), NotOfType(OnOrder));
    forall j' | 0 <= j' < j
      ensures stamped[j'].id != stamped[j].id
    {
      MergedEntry(items, bibs, OnOrder, nowMs, j');
    }
  }

  /**
   * The id hazard carried into the on-order write-back: when the store holds an
   * available-now item whose id the on-order page lists, the rebuilt store holds
   * that id twice, and the write-back puts an on-order record into the
   * available-now item's slot, so the store keeps the id twice and no item of the
   * available-now type is left under it.
   */
  lemma OnOrderWriteBackReplacesTwin(items: seq<LibraryItem>, wishList: seq<string>, bibs: seq<Bib>, probe: Probe,
                                     nowMs: nat, delay: int, i: int, k: int)
    requires UniqueIds(items)
    requires 0 <= i < |items| && 0 <= k < |bibs|
    requires items[i].itemType == AvailableNow && items[i].updateDate > NowSec(nowMs) - 30 * SECONDS_PER_DAY
    requires items[i].id == bibs[k].id
    ensures var r := RefreshCycle(items, wishList, Parsed(bibs), OnOrder, probe, nowMs, delay).0;
            && !UniqueIds(r)
            && (forall j :: 0 <= j < |r| && r[j].id == bibs[k].id ==> r[j].itemType == OnOrder)
  {
    var merged := MergedStore(items, bibs, OnOrder, nowMs);
    var r := WriteBack(StampOnOrder(merged, NowSec(nowMs)), OnOrderTitles(items, bibs, nowMs));
    assert r == RefreshCycle(items, wishList, Parsed(bibs), OnOrder, probe, nowMs, delay).0;
    CrossTypeIdDuplicated(items, bibs, OnOrder, nowMs, i, k);
    assert SameIds(merged, r);
    forall j | 0 <= j < |r| && r[j].id == bibs[k].id
      ensures r[j].itemType == OnOrder
    {
      OnOrderSlotOfBib(items, bibs, nowMs, k, j);
    }
  }
}
