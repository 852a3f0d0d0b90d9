/**
 * Properties of the older sync cycle: the insert-or-touch merge never stores an
 * id twice, the titles on the page survive the 7-day purge, probing is limited to
 * wish-listed available-now titles and their loanable copies, the per-branch
 * debounce silences a repeated probe, and an on-order title is announced once
 * for as long as it stays stored.
 */
module ScrapeProps {
  import opened Catalog
  import opened Scrape
  import Seqs
  import Text

  /** One turn of the merge: stored slots kept or touched to now, and at most one new record appended. */
  lemma InsertOrTouchOneShape(items: seq<LibraryItem>, b: Bib, t: ItemType, nowSec: int)
    ensures var m := InsertOrTouchOne(items, b, t, nowSec);
            && |items| <= |m| <= |items| + 1
            && (forall j :: 0 <= j < |items| ==> m[j] == items[j] || m[j] == items[j].(updateDate := nowSec))
            && (|m| == |items| + 1 ==> m[|items|] == NewItem(b, t, nowSec) && IndexOfId(items, b.id).None?)
            && IndexOfId(m, b.id).Some? && m[IndexOfId(m, b.id).value].updateDate == nowSec
  {
    var m := InsertOrTouchOne(items, b, t, nowSec);
    if IndexOfId(items, b.id).Some? {
      assert SameIds(items, m);
      SameIdsSameIndex(items, m, b.id);
    }
  }

  /** Every stored slot keeps its item, at most touched to now. */
  lemma {:induction false} InsertOrTouchPrefix(items: seq<LibraryItem>, bibs: seq<Bib>, t: ItemType, nowSec: int)
    ensures var r := InsertOrTouch(items, bibs, t, nowSec);
            && |items| <= |r|
            && (forall j :: 0 <= j < |items| ==> r[j] == items[j] || r[j] == items[j].(updateDate := nowSec))
    decreases |bibs|
  {
    if bibs != [] {
      var m := InsertOrTouchOne(items, bibs[0], t, nowSec);
      InsertOrTouchOneShape(items, bibs[0], t, nowSec);
      InsertOrTouchPrefix(m, bibs[1..], t, nowSec);
    }
  }

  /** Every appended item is the new record of a bib whose id was not stored. */
  lemma {:induction false} InsertOrTouchAppended(items: seq<LibraryItem>, bibs: seq<Bib>, t: ItemType, nowSec: int)
    ensures var r := InsertOrTouch(items, bibs, t, nowSec);
            forall j :: |items| <= j < |r| ==>
              exists k :: 0 <= k < |bibs| && r[j] == NewItem(bibs[k], t, nowSec) && IndexOfId(items, bibs[k].id).None?
    decreases |bibs|, 1
  {
    if bibs != [] {
      var m := InsertOrTouchOne(items, bibs[0], t, nowSec);
      var r := InsertOrTouch(items, bibs, t, nowSec);
      assert r == InsertOrTouch(m, bibs[1..], t, nowSec);
      InsertOrTouchOneShape(items, bibs[0], t, nowSec);
      forall j | |items| <= j < |r|
        ensures exists k :: 0 <= k < |bibs| && r[j] == NewItem(bibs[k], t, nowSec) && IndexOfId(items, bibs[k].id).None?
      {
        if j < |m| {
          InsertOrTouchPrefix(m, bibs[1..], t, nowSec);
          assert r[j] == NewItem(bibs[0], t, nowSec);
        } else {
          AppendedByLaterBib(items, m, bibs, t, nowSec, j);
        }
      }
    }
  }

  /** A slot past the first turn's result was appended by a later bib whose id was stored neither before nor after the first turn. */
  lemma {:induction false} AppendedByLaterBib(items: seq<LibraryItem>, m: seq<LibraryItem>, bibs: seq<Bib>, t: ItemType, nowSec: int, j: int)
    requires bibs != [] && m == InsertOrTouchOne(items, bibs[0], t, nowSec)
    requires |m| <= j < |InsertOrTouch(m, bibs[1..], t, nowSec)|
    ensures exists k :: 0 <= k < |bibs| && InsertOrTouch(m, bibs[1..], t, nowSec)[j] == NewItem(bibs[k], t, nowSec) && IndexOfId(items, bibs[k].id).None?
    decreases |bibs|, 0
  {
    var r := InsertOrTouch(m, bibs[1..], t, nowSec);
    InsertOrTouchOneShape(items, bibs[0], t, nowSec);
    InsertOrTouchAppended(m, bibs[1..], t, nowSec);
    var k :| 0 <= k < |bibs[1..]| && r[j] == NewItem(bibs[1..][k], t, nowSec) && IndexOfId(m, bibs[1..][k].id).None?;
    assert bibs[1..][k] == bibs[k + 1];
    AbsentBeforeGrowth(items, m, bibs[k + 1].id);
  }

  /** An id missing from a grown list whose old slots keep their ids was missing before. */
  lemma AbsentBeforeGrowth(items: seq<LibraryItem>, m: seq<LibraryItem>, id: string)
    requires |items| <= |m|
    requires forall i :: 0 <= i < |items| ==> m[i] == items[i] || m[i] == items[i].(updateDate := m[i].updateDate)
    requires IndexOfId(m, id).None?
    ensures IndexOfId(items, id).None?
  {
  }

  /** An id whose first slot was touched stays at that slot, touched, through the rest of the merge. */
  lemma TouchedStays(items: seq<LibraryItem>, bibs: seq<Bib>, t: ItemType, nowSec: int, id: string)
    requires IndexOfId(items, id).Some? && items[IndexOfId(items, id).value].updateDate == nowSec
    ensures var r := InsertOrTouch(items, bibs, t, nowSec);
            IndexOfId(r, id) == IndexOfId(items, id) && r[IndexOfId(items, id).value].updateDate == nowSec
  {
    InsertOrTouchPrefix(items, bibs, t, nowSec);
  }

  /** After the merge, the first stored item with each bib's id was updated now. */
  lemma {:induction false} InsertOrTouchTouchesAll(items: seq<LibraryItem>, bibs: seq<Bib>, t: ItemType, nowSec: int, k: int)
    requires 0 <= k < |bibs|
    ensures var r := InsertOrTouch(items, bibs, t, nowSec);
            IndexOfId(r, bibs[k].id).Some? && r[IndexOfId(r, bibs[k].id).value].updateDate == nowSec
    decreases |bibs|
  {
    var m := InsertOrTouchOne(items, bibs[0], t, nowSec);
    assert InsertOrTouch(items, bibs, t, nowSec) == InsertOrTouch(m, bibs[1..], t, nowSec);
    if k == 0 {
      FirstBibTouched(items, bibs, t, nowSec);
    } else {
      InsertOrTouchTouchesAll(m, bibs[1..], t, nowSec, k - 1);
      assert bibs[1..][k - 1] == bibs[k];
    }
  }

  /** The first bib's id is touched by the first turn and stays touched through the rest. */
  lemma FirstBibTouched(items: seq<LibraryItem>, bibs: seq<Bib>, t: ItemType, nowSec: int)
    requires bibs != []
    ensures var r := InsertOrTouch(InsertOrTouchOne(items, bibs[0], t, nowSec), bibs[1..], t, nowSec);
            IndexOfId(r, bibs[0].id).Some? && r[IndexOfId(r, bibs[0].id).value].updateDate == nowSec
  {
    var m := InsertOrTouchOne(items, bibs[0], t, nowSec);
    InsertOrTouchOneShape(items, bibs[0], t, nowSec);
    TouchedStays(m, bibs[1..], t, nowSec, bibs[0].id);
  }

  /**
   * An unfolding of `InsertOrTouchOne`: a touch keeps the ids and an append adds an
   * absent one; the whole-page induction is `InsertOrTouchKeepsUniqueIds`.
   */
  lemma InsertOrTouchOneKeepsUniqueIds(items: seq<LibraryItem>, b: Bib, t: ItemType, nowSec: int)
    requires UniqueIds(items)
    ensures UniqueIds(InsertOrTouchOne(items, b, t, nowSec))
  {
  }

  /**
   * The merge never stores an id twice: a bib whose id is stored only touches it,
   * and a page listing the same id twice touches the record it appended.
   */
  lemma {:induction false} InsertOrTouchKeepsUniqueIds(items: seq<LibraryItem>, bibs: seq<Bib>, t: ItemType, nowSec: int)
    requires UniqueIds(items)
    ensures UniqueIds(InsertOrTouch(items, bibs, t, nowSec))
    decreases |bibs|
  {
    if bibs != [] {
      InsertOrTouchOneKeepsUniqueIds(items, bibs[0], t, nowSec);
      InsertOrTouchKeepsUniqueIds(InsertOrTouchOne(items, bibs[0], t, nowSec), bibs[1..], t, nowSec);
    }
  }

  /** Every title on the page is stored after the purge, updated now. */
  lemma PageTitlesSurvivePurge(items: seq<LibraryItem>, bibs: seq<Bib>, t: ItemType, nowMs: nat, k: int)
    requires 0 <= k < |bibs|
    ensures var merged := Purge(InsertOrTouch(items, bibs, t, NowSec(nowMs)), NowSec(nowMs));
            IndexOfId(merged, bibs[k].id).Some? && merged[IndexOfId(merged, bibs[k].id).value].updateDate == NowSec(nowMs)
  {
    var nowSec := NowSec(nowMs);
    var r := InsertOrTouch(items, bibs, t, nowSec);
    InsertOrTouchTouchesAll(items, bibs, t, nowSec, k);
    FirstWithIdSurvivesFilter(r, bibs[k].id, Recent(nowSec));
  }

  /** A store without repeated ids keeps that property through a whole `scrapeItems` call, whatever its outcome. */
  lemma ScrapeKeepsUniqueIds(items: seq<LibraryItem>, wishList: seq<string>, data: PageData, t: ItemType,
                             probe: Probe, nowMs: nat, delay: int)
    requires UniqueIds(items)
    ensures UniqueIds(ScrapeCycle(items, wishList, data, t, probe, nowMs, delay).0)
  {
    if data.Parsed? {
      var nowSec := NowSec(nowMs);
      var touched := InsertOrTouch(items, data.bibs, t, nowSec);
      InsertOrTouchKeepsUniqueIds(items, data.bibs, t, nowSec);
      FilterKeepsUniqueIds(touched, Recent(nowSec));
      var merged := Purge(touched, nowSec);
      if t == AvailableNow {
        var r := ProbePass(PassState(merged, [], []), WishListItems(merged, wishList), probe, SCRAPE_LOCATIONS, nowMs, delay);
        assert SameIds(merged, r.state.items);
      } else {
        var stamped := StampOnOrder(merged, nowSec);
        assert forall j :: 0 <= j < |merged| ==> stamped[j].id == merged[j].id;
      }
    }
  }

  /** Every loanable copy is an available one: the older cycle only narrows the newer cycle's test. */
  lemma LoanableNarrowsAvailable(c: Copy)
    ensures IsLoanable(c) ==> IsAvailable(c)
  {
  }

  /** Two available copies the older cycle skips: a holdable one and a "4K" one. */
  lemma LoanableExclusions()
    ensures IsAvailable(Copy("AVAILABLE", "Adult Fiction", "F SMITH", "Tigard Public Library"))
    ensures !IsLoanable(Copy("AVAILABLE", "Adult Fiction", "F SMITH", "Tigard Public Library"))
    ensures !IsLoanable(Copy("AVAILABLE", "Lucky Day Not Holdable", "4K DVD", "Tigard Public Library"))
  {
    assert "Adult Fiction"[1..][0] != "Not Holdable"[0];
    assert "4K DVD"[..2] == "4K";
  }

  /** The copies a probe hands to the debounce all pass the loanable test, and every loanable copy reported is among them. */
  lemma LoanableCopiesSpec(probe: Probe, id: string)
    ensures LoanableCopies(probe, id).None? <==> probe(id).None?
    ensures LoanableCopies(probe, id).Some? ==>
              (forall m :: 0 <= m < |LoanableCopies(probe, id).value| ==>
                 LoanableCopies(probe, id).value[m] in probe(id).value && IsLoanable(LoanableCopies(probe, id).value[m]))
              && (forall m :: 0 <= m < |probe(id).value| && IsLoanable(probe(id).value[m]) ==>
                    probe(id).value[m] in LoanableCopies(probe, id).value)
  {
  }

  /** A block naming the probed title `item` and a branch of the table. */
  ghost predicate TitleBlock(block: string, item: LibraryItem, table: seq<Location>) {
    exists loc :: loc in table && block == AvailableBlock(item.title, loc.name, item.url)
  }

  /** A block naming one of the wish-listed titles and a branch of the table. */
  ghost predicate WishedBlock(block: string, wished: seq<LibraryItem>, table: seq<Location>) {
    exists n :: 0 <= n < |wished| && TitleBlock(block, wished[n], table)
  }

  lemma {:induction false} CopiesPassBlocks(s: PassState, item: LibraryItem, copies: seq<Copy>, table: seq<Location>,
                                            nowMs: nat, delay: int)
    ensures var r := CopiesPass(s, item, copies, table, nowMs, delay);
            |s.blocks| <= |r.blocks| && r.blocks[..|s.blocks|] == s.blocks
            && forall k :: |s.blocks| <= k < |r.blocks| ==> TitleBlock(r.blocks[k], item, table)
    decreases |copies|
  {
    if copies != [] {
      var s1 := CopyStep(s, item, copies[0], table, nowMs, delay);
      var r := CopiesPass(s, item, copies, table, nowMs, delay);
      CopiesPassBlocks(s1, item, copies[1..], table, nowMs, delay);
      assert s1.blocks[..|s.blocks|] == s.blocks;
      forall k | |s.blocks| <= k < |r.blocks|
        ensures TitleBlock(r.blocks[k], item, table)
      {
        if k < |s1.blocks| {
          assert r.blocks[k] == r.blocks[..|s1.blocks|][k] == s1.blocks[k];
          var loc := FindLocation(table, copies[0].branchName).value;
          assert s1.blocks[k] == AvailableBlock(item.title, loc.name, item.url);
        }
      }
    }
  }

  /**
   * The probing only ever appends blocks, and each one names a wish-listed title,
   * with that title's own url, and a branch of the table.
   */
  lemma {:induction false} ProbeBlocksNameWished(s: PassState, wished: seq<LibraryItem>, probe: Probe,
                                                 table: seq<Location>, nowMs: nat, delay: int)
    ensures var r := ProbePass(s, wished, probe, table, nowMs, delay).state;
            |s.blocks| <= |r.blocks| && r.blocks[..|s.blocks|] == s.blocks
            && forall k :: |s.blocks| <= k < |r.blocks| ==> WishedBlock(r.blocks[k], wished, table)
    decreases |wished|
  {
    if wished != [] && LoanableCopies(probe, wished[0].id).Some? {
      var copies := LoanableCopies(probe, wished[0].id).value;
      var s1 := CopiesPass(s, wished[0], copies, table, nowMs, delay);
      var r := ProbePass(s, wished, probe, table, nowMs, delay).state;
      CopiesPassBlocks(s, wished[0], copies, table, nowMs, delay);
      ProbeBlocksNameWished(s1, wished[1..], probe, table, nowMs, delay);
      assert r.blocks[..|s.blocks|] == r.blocks[..|s1.blocks|][..|s.blocks|];
      forall k | |s.blocks| <= k < |r.blocks|
        ensures WishedBlock(r.blocks[k], wished, table)
      {
        if k < |s1.blocks| {
          assert r.blocks[k] == r.blocks[..|s1.blocks|][k] == s1.blocks[k];
          assert TitleBlock(r.blocks[k], wished[0], table);
        } else {
          var n :| 0 <= n < |wished[1..]| && TitleBlock(r.blocks[k], wished[1..][n], table);
          assert wished[1..][n] == wished[n + 1];
        }
      }
    }
  }

  /** Stamping changes nothing but the availability maps. */
  ghost predicate OnlyAvailabilityChanged(a: seq<LibraryItem>, b: seq<LibraryItem>) {
    |a| == |b| && forall j :: 0 <= j < |a| ==> b[j].(availability := a[j].availability) == a[j]
  }

  lemma {:induction false} CopiesPassAlerts(s: PassState, item: LibraryItem, copies: seq<Copy>, table: seq<Location>,
                                            nowMs: nat, delay: int)
    ensures var r := CopiesPass(s, item, copies, table, nowMs, delay);
            && OnlyAvailabilityChanged(s.items, r.items)
            && |s.alerted| <= |r.alerted| && r.alerted[..|s.alerted|] == s.alerted
            && forall k :: |s.alerted| <= k < |r.alerted| ==> r.alerted[k] < |r.items| && r.items[r.alerted[k]].id == item.id
    decreases |copies|
  {
    if copies != [] {
      var s1 := CopyStep(s, item, copies[0], table, nowMs, delay);
      var r := CopiesPass(s, item, copies, table, nowMs, delay);
      CopiesPassAlerts(s1, item, copies[1..], table, nowMs, delay);
      assert OnlyAvailabilityChanged(s.items, s1.items);
      assert r.alerted[..|s.alerted|] == r.alerted[..|s1.alerted|][..|s.alerted|];
      forall k | |s.alerted| <= k < |r.alerted|
        ensures r.alerted[k] < |r.items| && r.items[r.alerted[k]].id == item.id
      {
        if k < |s1.alerted| {
          assert r.alerted[k] == r.alerted[..|s1.alerted|][k] == s1.alerted[k];
        }
      }
    }
  }

  lemma {:induction false} ProbePassAlerts(s: PassState, wished: seq<LibraryItem>, probe: Probe, table: seq<Location>,
                                           nowMs: nat, delay: int)
    ensures var r := ProbePass(s, wished, probe, table, nowMs, delay).state;
            && OnlyAvailabilityChanged(s.items, r.items)
            && |s.alerted| <= |r.alerted| && r.alerted[..|s.alerted|] == s.alerted
            && forall k :: |s.alerted| <= k < |r.alerted| ==>
                 r.alerted[k] < |r.items| && exists n :: 0 <= n < |wished| && r.items[r.alerted[k]].id == wished[n].id
    decreases |wished|
  {
    if wished != [] && LoanableCopies(probe, wished[0].id).Some? {
      var copies := LoanableCopies(probe, wished[0].id).value;
      var s1 := CopiesPass(s, wished[0], copies, table, nowMs, delay);
      var r := ProbePass(s, wished, probe, table, nowMs, delay).state;
      CopiesPassAlerts(s, wished[0], copies, table, nowMs, delay);
      ProbePassAlerts(s1, wished[1..], probe, table, nowMs, delay);
      assert r.alerted[..|s.alerted|] == r.alerted[..|s1.alerted|][..|s.alerted|];
      forall k | |s.alerted| <= k < |r.alerted|
        ensures r.alerted[k] < |r.items| && exists n :: 0 <= n < |wished| && r.items[r.alerted[k]].id == wished[n].id
      {
        AlertedFromSomeTurn(s, s1, r, wished, k);
      }
    }
  }

  /** One alerted slot of the whole pass: alerted by the first title's copies, or by a later title's. */
  lemma AlertedFromSomeTurn(s: PassState, s1: PassState, r: PassState, wished: seq<LibraryItem>, k: int)
    requires wished != []
    requires |s.alerted| <= |s1.alerted| <= |r.alerted| && r.alerted[..|s1.alerted|] == s1.alerted
    requires SameIds(s1.items, r.items)
    requires forall i :: |s.alerted| <= i < |s1.alerted| ==> s1.alerted[i] < |s1.items| && s1.items[s1.alerted[i]].id == wished[0].id
    requires forall i :: |s1.alerted| <= i < |r.alerted| ==>
               r.alerted[i] < |r.items| && exists n :: 0 <= n < |wished[1..]| && r.items[r.alerted[i]].id == wished[1..][n].id
    requires |s.alerted| <= k < |r.alerted|
    ensures r.alerted[k] < |r.items| && exists n :: 0 <= n < |wished| && r.items[r.alerted[k]].id == wished[n].id
  {
    if k < |s1.alerted| {
      assert r.alerted[k] == r.alerted[..|s1.alerted|][k] == s1.alerted[k];
      assert r.items[r.alerted[k]].id == s1.items[r.alerted[k]].id == wished[0].id;
    } else {
      var n :| 0 <= n < |wished[1..]| && r.items[r.alerted[k]].id == wished[1..][n].id;
      assert wished[1..][n] == wished[n + 1];
    }
  }

  /**
   * `CopyStep` unfolded, with `StampBranch`'s firing test spelled out (the bridge to
   * the pass lemmas below, not itself the stale-copy property).
   * One turn over a loanable copy, both ways: it fires exactly when the copy's
   * branch is in the table, a stored item carries the probed title's id and that
   * item's entry for the branch is missing, zero or older than the delay. Then the
   * first item with the id is stamped now for the branch and pushed, and a block
   * naming the probed title, the branch and the title's url is added; any other
   * turn changes nothing.
   */
  lemma CopyStepFires(s: PassState, item: LibraryItem, c: Copy, table: seq<Location>, nowMs: nat, delay: int)
    ensures var r := CopyStep(s, item, c, table, nowMs, delay);
            var loc := FindLocation(table, c.branchName);
            var slot := IndexOfId(s.items, item.id);
            if loc.Some? && slot.Some? && DelayExceeded(Get(s.items[slot.value].availability, loc.value.code), nowMs, delay)
            then var stored := s.items[slot.value];
                 && r.items == s.items[slot.value := stored.(availability := stored.availability[loc.value.code := BranchStamp(NowSec(nowMs), loc.value.name)])]
                 && r.alerted == s.alerted + [slot.value]
                 && r.blocks == s.blocks + [AvailableBlock(item.title, loc.value.name, item.url)]
            else r == s
  {
  }

  /** One turn either pushes slot `i` or leaves it as it was; it keeps every id in place. */
  lemma CopyStepPushesOrKeeps(s: PassState, item: LibraryItem, c: Copy, table: seq<Location>, nowMs: nat, delay: int,
                              i: int)
    requires 0 <= i < |s.items|
    ensures var s1 := CopyStep(s, item, c, table, nowMs, delay);
            && SameIds(s.items, s1.items)
            && |s.alerted| <= |s1.alerted| && s1.alerted[..|s.alerted|] == s.alerted
            && (s1.alerted == s.alerted + [i] || s1.items[i] == s.items[i])
  {
    CopyStepFires(s, item, c, table, nowMs, delay);
  }

  /** Every push of a pass over the copies of a title comes with exactly one block. */
  lemma {:induction false} CopiesPassBlockPerPush(s: PassState, item: LibraryItem, copies: seq<Copy>,
                                                  table: seq<Location>, nowMs: nat, delay: int)
    ensures var r := CopiesPass(s, item, copies, table, nowMs, delay);
            |s.alerted| <= |r.alerted| && |r.blocks| - |s.blocks| == |r.alerted| - |s.alerted|
    decreases |copies|
  {
    if copies != [] {
      CopyStepFires(s, item, copies[0], table, nowMs, delay);
      CopiesPassBlockPerPush(CopyStep(s, item, copies[0], table, nowMs, delay), item, copies[1..], table, nowMs, delay);
    }
  }

  /** Every push of the probing comes with exactly one block. */
  lemma {:induction false} ProbePassBlockPerPush(s: PassState, wished: seq<LibraryItem>, probe: Probe,
                                                 table: seq<Location>, nowMs: nat, delay: int)
    ensures var r := ProbePass(s, wished, probe, table, nowMs, delay).state;
            |s.alerted| <= |r.alerted| && |r.blocks| - |s.blocks| == |r.alerted| - |s.alerted|
    decreases |wished|
  {
    if wished != [] && LoanableCopies(probe, wished[0].id).Some? {
      var copies := LoanableCopies(probe, wished[0].id).value;
      CopiesPassBlockPerPush(s, wished[0], copies, table, nowMs, delay);
      ProbePassBlockPerPush(CopiesPass(s, wished[0], copies, table, nowMs, delay), wished[1..], probe, table, nowMs, delay);
    }
  }

  /** A pass over copies either pushes slot `i` or leaves it as it was. */
  lemma {:induction false} CopiesPassPushesOrKeeps(s: PassState, item: LibraryItem, copies: seq<Copy>,
                                                   table: seq<Location>, nowMs: nat, delay: int, i: int)
    requires 0 <= i < |s.items|
    ensures var r := CopiesPass(s, item, copies, table, nowMs, delay);
            |s.alerted| <= |r.alerted| && (i in r.alerted[|s.alerted|..] || r.items[i] == s.items[i])
    decreases |copies|
  {
    if copies != [] {
      var s1 := CopyStep(s, item, copies[0], table, nowMs, delay);
      var r := CopiesPass(s1, item, copies[1..], table, nowMs, delay);
      CopyStepPushesOrKeeps(s, item, copies[0], table, nowMs, delay, i);
      CopiesPassAlerts(s1, item, copies[1..], table, nowMs, delay);
      CopiesPassPushesOrKeeps(s1, item, copies[1..], table, nowMs, delay, i);
      if s1.alerted == s.alerted + [i] {
        assert r.alerted[|s.alerted|] == r.alerted[..|s1.alerted|][|s.alerted|] == i;
      } else if i in r.alerted[|s1.alerted|..] {
        Seqs.SuffixMember(r.alerted, |s.alerted|, |s1.alerted|, i);
      }
    }
  }

  /**
   * Every loanable copy at a table branch whose entry for the stored title is
   * stale when the pass starts gets the title pushed: either that copy's turn
   * fires, or an earlier copy at the same branch already did.
   */
  lemma {:induction false} CopiesPassPushesStale(s: PassState, item: LibraryItem, copies: seq<Copy>,
                                                 table: seq<Location>, nowMs: nat, delay: int, n: int)
    requires 0 <= n < |copies|
    requires FindLocation(table, copies[n].branchName).Some? && IndexOfId(s.items, item.id).Some?
    requires DelayExceeded(Get(s.items[IndexOfId(s.items, item.id).value].availability,
                               FindLocation(table, copies[n].branchName).value.code), nowMs, delay)
    ensures var r := CopiesPass(s, item, copies, table, nowMs, delay);
            |s.alerted| <= |r.alerted| && IndexOfId(s.items, item.id).value in r.alerted[|s.alerted|..]
    decreases |copies|
  {
    var i := IndexOfId(s.items, item.id).value;
    var s1 := CopyStep(s, item, copies[0], table, nowMs, delay);
    var r := CopiesPass(s1, item, copies[1..], table, nowMs, delay);
    CopyStepPushesOrKeeps(s, item, copies[0], table, nowMs, delay, i);
    CopiesPassAlerts(s1, item, copies[1..], table, nowMs, delay);
    if n == 0 {
      CopyStepFires(s, item, copies[0], table, nowMs, delay);
    }
    if s1.alerted == s.alerted + [i] {
      assert r.alerted[|s.alerted|] == r.alerted[..|s1.alerted|][|s.alerted|] == i;
    } else {
      SameIdsSameIndex(s.items, s1.items, item.id);
      assert copies[1..][n - 1] == copies[n];
      CopiesPassPushesStale(s1, item, copies[1..], table, nowMs, delay, n - 1);
      Seqs.SuffixMember(r.alerted, |s.alerted|, |s1.alerted|, i);
    }
  }

  /** A pass over copies only appends to the pushed slots. */
  lemma {:induction false} CopiesPassExtends(s: PassState, item: LibraryItem, copies: seq<Copy>,
                                             table: seq<Location>, nowMs: nat, delay: int)
    ensures var r := CopiesPass(s, item, copies, table, nowMs, delay);
            |s.alerted| <= |r.alerted| && r.alerted[..|s.alerted|] == s.alerted
    decreases |copies|
  {
    if copies != [] {
      var s1 := CopyStep(s, item, copies[0], table, nowMs, delay);
      var r := CopiesPass(s1, item, copies[1..], table, nowMs, delay);
      CopyStepFires(s, item, copies[0], table, nowMs, delay);
      CopiesPassExtends(s1, item, copies[1..], table, nowMs, delay);
      assert r.alerted[..|s.alerted|] == r.alerted[..|s1.alerted|][..|s.alerted|];
    }
  }

  /** The probing only appends to the pushed slots. */
  lemma {:induction false} ProbePassExtends(s: PassState, wished: seq<LibraryItem>, probe: Probe,
                                            table: seq<Location>, nowMs: nat, delay: int)
    ensures var r := ProbePass(s, wished, probe, table, nowMs, delay).state;
            |s.alerted| <= |r.alerted| && r.alerted[..|s.alerted|] == s.alerted
    decreases |wished|
  {
    if wished != [] && LoanableCopies(probe, wished[0].id).Some? {
      var copies := LoanableCopies(probe, wished[0].id).value;
      var s1 := CopiesPass(s, wished[0], copies, table, nowMs, delay);
      var r := ProbePass(s1, wished[1..], probe, table, nowMs, delay).state;
      CopiesPassExtends(s, wished[0], copies, table, nowMs, delay);
      ProbePassExtends(s1, wished[1..], probe, table, nowMs, delay);
      assert r.alerted[..|s.alerted|] == r.alerted[..|s1.alerted|][..|s.alerted|];
    }
  }

  /** A slot pushed by an earlier stretch stays among the pushes of a longer one. */
  lemma PushKept(a: seq<nat>, a1: seq<nat>, a2: seq<nat>, i: nat)
    requires |a| <= |a1| <= |a2| && a2[..|a1|] == a1 && i in a1[|a|..]
    ensures i in a2[|a|..]
  {
    var m :| 0 <= m < |a1[|a|..]| && a1[|a|..][m] == i;
    assert a2[|a|..][m] == a2[..|a1|][|a| + m];
  }

  /**
   * The lift to the probing: when every probe up to the `n`-th title succeeds,
   * each loanable copy of that title at a table branch whose entry for the stored
   * title is stale when the probing starts gets the title pushed.
   */
  lemma {:induction false} ProbePassPushesStale(s: PassState, wished: seq<LibraryItem>, probe: Probe,
                                                table: seq<Location>, nowMs: nat, delay: int, n: int, c: Copy)
    requires 0 <= n < |wished|
    requires forall m :: 0 <= m <= n ==> LoanableCopies(probe, wished[m].id).Some?
    requires c in LoanableCopies(probe, wished[n].id).value
    requires FindLocation(table, c.branchName).Some? && IndexOfId(s.items, wished[n].id).Some?
    requires DelayExceeded(Get(s.items[IndexOfId(s.items, wished[n].id).value].availability,
                               FindLocation(table, c.branchName).value.code), nowMs, delay)
    ensures var r := ProbePass(s, wished, probe, table, nowMs, delay).state;
            |s.alerted| <= |r.alerted| && IndexOfId(s.items, wished[n].id).value in r.alerted[|s.alerted|..]
    decreases |wished|, 1
  {
    var i := IndexOfId(s.items, wished[n].id).value;
    var copies := LoanableCopies(probe, wished[0].id).value;
    var s1 := CopiesPass(s, wished[0], copies, table, nowMs, delay);
    var r := ProbePass(s1, wished[1..], probe, table, nowMs, delay).state;
    ProbePassExtends(s1, wished[1..], probe, table, nowMs, delay);
    CopiesPassExtends(s, wished[0], copies, table, nowMs, delay);
    if n == 0 {
      var j :| 0 <= j < |copies| && copies[j] == c;
      CopiesPassPushesStale(s, wished[0], copies, table, nowMs, delay, j);
      PushKept(s.alerted, s1.alerted, r.alerted, i);
    } else {
      CopiesPassPushesOrKeeps(s, wished[0], copies, table, nowMs, delay, i);
      if i in s1.alerted[|s.alerted|..] {
        PushKept(s.alerted, s1.alerted, r.alerted, i);
      } else {
        SameIdsSameIndex(s.items, s1.items, wished[n].id);
        ProbeTailPushesStale(s1, wished, probe, table, nowMs, delay, n, c);
        Seqs.SuffixMember(r.alerted, |s.alerted|, |s1.alerted|, i);
      }
    }
  }

  /** The recursive step of the lift: the same copy, one title further on. */
  lemma ProbeTailPushesStale(s1: PassState, wished: seq<LibraryItem>, probe: Probe,
                             table: seq<Location>, nowMs: nat, delay: int, n: int, c: Copy)
    requires 0 < n < |wished|
    requires forall m :: 0 <= m <= n ==> LoanableCopies(probe, wished[m].id).Some?
    requires c in LoanableCopies(probe, wished[n].id).value
    requires FindLocation(table, c.branchName).Some? && IndexOfId(s1.items, wished[n].id).Some?
    requires DelayExceeded(Get(s1.items[IndexOfId(s1.items, wished[n].id).value].availability,
                               FindLocation(table, c.branchName).value.code), nowMs, delay)
    ensures var r := ProbePass(s1, wished[1..], probe, table, nowMs, delay).state;
            |s1.alerted| <= |r.alerted| && IndexOfId(s1.items, wished[n].id).value in r.alerted[|s1.alerted|..]
    decreases |wished|, 0
  {
    assert wished[1..][n - 1] == wished[n];
    assert forall m :: 0 <= m <= n - 1 ==> wished[1..][m] == wished[m + 1];
    ProbePassPushesStale(s1, wished[1..], probe, table, nowMs, delay, n - 1, c);
  }

  /**
   * A worked case: a wish-listed title never announced anywhere whose probe
   * reports one loanable copy at the Tigard branch is pushed once, with one block
   * naming the title, the branch and the url, and the probing finishes.
   */
  lemma LoanableCopyAlerts(nowMs: nat, delay: int)
    ensures var item := LibraryItem("b1", AvailableNow, "Dune", Details("", "", "", "", "", None), "u",
                                    0, 0, None, map[]);
            var c := Copy("AVAILABLE", "Lucky Day Not Holdable", "FIC", "Tigard Public Library");
            var probe: Probe := (id: string) => Some([c]);
            var r := ProbePass(PassState([item], [], []), [item], probe, SCRAPE_LOCATIONS, nowMs, delay);
            && r.Finished?
            && r.state.alerted == [0]
            && r.state.blocks == [AvailableBlock("Dune", "Tigard Public Library", "u")]
            && r.state.items[0].availability == map[29 := BranchStamp(NowSec(nowMs), "Tigard Public Library")]
  {
    var item := LibraryItem("b1", AvailableNow, "Dune", Details("", "", "", "", "", None), "u", 0, 0, None, map[]);
    var c := Copy("AVAILABLE", "Lucky Day Not Holdable", "FIC", "Tigard Public Library");
    var probe: Probe := (id: string) => Some([c]);
    var s := PassState([item], [], []);
    assert IsLoanable(c) by {
      assert Text.EndsWith(c.collection, "Not Holdable");
      assert c.callNumber[..2][0] != "4K"[0];
    }
    assert Seqs.Filter([c], IsLoanable) == [c];
    assert LoanableCopies(probe, "b1") == Some([c]);
    assert FindLocation(SCRAPE_LOCATIONS, "Tigard Public Library") == Some(Location(29, "Tigard Public Library"));
    assert IndexOfId([item], "b1") == Some(0);
    assert CopiesPass(s, item, [c], SCRAPE_LOCATIONS, nowMs, delay) == CopyStep(s, item, c, SCRAPE_LOCATIONS, nowMs, delay);
  }

  /** Available-now items whose title matches the wish list, all of them. */
  ghost predicate AllWishListed(items: seq<LibraryItem>, wishList: seq<string>) {
    forall k :: 0 <= k < |items| ==> items[k].itemType == AvailableNow && TitleMatchesWishList(items[k].title, wishList)
  }

  /** Every pushed slot holds one of the probed titles, up to its availability map. */
  ghost predicate PushedFrom(r: PassState, wished: seq<LibraryItem>) {
    && ValidPass(r)
    && forall k :: 0 <= k < |r.alerted| ==>
         exists n :: 0 <= n < |wished| && r.items[r.alerted[k]].(availability := wished[n].availability) == wished[n]
  }

  /** Over a store without repeated ids, every slot the probing pushes holds one of the probed titles (stamped). */
  lemma AlertedAreWished(merged: seq<LibraryItem>, wished: seq<LibraryItem>, probe: Probe, table: seq<Location>,
                         nowMs: nat, delay: int)
    requires UniqueIds(merged)
    requires forall n :: 0 <= n < |wished| ==> wished[n] in merged
    ensures PushedFrom(ProbePass(PassState(merged, [], []), wished, probe, table, nowMs, delay).state, wished)
  {
    var r := ProbePass(PassState(merged, [], []), wished, probe, table, nowMs, delay).state;
    ProbePassAlerts(PassState(merged, [], []), wished, probe, table, nowMs, delay);
    forall k | 0 <= k < |r.alerted|
      ensures r.alerted[k] < |r.items| &&
              exists n :: 0 <= n < |wished| && r.items[r.alerted[k]].(availability := wished[n].availability) == wished[n]
    {
      var a := r.alerted[k];
      var n :| 0 <= n < |wished| && r.items[a].id == wished[n].id;
      var q :| 0 <= q < |merged| && merged[q] == wished[n];
      assert merged[a].id == r.items[a].id;
      assert q == a;
    }
  }

  /** The items pushed by a probing over wish-listed available-now titles are wish-listed available-now items. */
  lemma PushedAreWishListed(r: PassState, wished: seq<LibraryItem>, wishList: seq<string>)
    requires PushedFrom(r, wished)
    requires forall n :: 0 <= n < |wished| ==>
               wished[n].itemType == AvailableNow && TitleMatchesWishList(wished[n].title, wishList)
    ensures AllWishListed(AlertedItems(r), wishList)
  {
    var returned := AlertedItems(r);
    forall k | 0 <= k < |returned|
      ensures returned[k].itemType == AvailableNow && TitleMatchesWishList(returned[k].title, wishList)
    {
      assert returned[k] == r.items[r.alerted[k]];
      var n :| 0 <= n < |wished| && r.items[r.alerted[k]].(availability := wished[n].availability) == wished[n];
    }
  }

  /**
   * On a store without repeated ids, what an available-now scrape returns is made
   * of available-now items whose title matches the wish list.
   */
  lemma ScrapeReturnsWishListed(items: seq<LibraryItem>, wishList: seq<string>, bibs: seq<Bib>, probe: Probe,
                                nowMs: nat, delay: int)
    requires UniqueIds(items)
    ensures var out := ScrapeCycle(items, wishList, Parsed(bibs), AvailableNow, probe, nowMs, delay).1;
            out.Returned? ==> AllWishListed(out.items, wishList)
  {
    var nowSec := NowSec(nowMs);
    var touched := InsertOrTouch(items, bibs, AvailableNow, nowSec);
    InsertOrTouchKeepsUniqueIds(items, bibs, AvailableNow, nowSec);
    FilterKeepsUniqueIds(touched, Recent(nowSec));
    var merged := Purge(touched, nowSec);
    var outcome := ProbePass(PassState(merged, [], []), WishListItems(merged, wishList), probe, SCRAPE_LOCATIONS,
                             nowMs, delay);
    assert ScrapeCycle(items, wishList, Parsed(bibs), AvailableNow, probe, nowMs, delay).1
           == if outcome.Aborted? then ServerError(SERVER_ERROR)
              else Returned(AlertedItems(outcome.state), AlertMessage(AvailableNow, outcome.state.blocks));
    ProbeReturnsWishListed(merged, wishList, probe, nowMs, delay);
  }

  lemma ProbeReturnsWishListed(merged: seq<LibraryItem>, wishList: seq<string>, probe: Probe, nowMs: nat, delay: int)
    requires UniqueIds(merged)
    ensures var r := ProbePass(PassState(merged, [], []), WishListItems(merged, wishList), probe, SCRAPE_LOCATIONS,
                               nowMs, delay).state;
            AllWishListed(AlertedItems(r), wishList)
  {
    var wished := WishListItems(merged, wishList);
    AlertedAreWished(merged, wished, probe, SCRAPE_LOCATIONS, nowMs, delay);
    PushedAreWishListed(ProbePass(PassState(merged, [], []), wished, probe, SCRAPE_LOCATIONS, nowMs, delay).state,
                        wished, wishList);
  }

  /**
   * An unfolding of `ScrapeCycle` on an empty wish list: an available-now scrape
   * probes nothing, stamps nothing, returns no item and sends no alert.
   */
  lemma EmptyWishListIsQuiet(items: seq<LibraryItem>, bibs: seq<Bib>, probe: Probe, nowMs: nat, delay: int)
    ensures var nowSec := NowSec(nowMs);
            ScrapeCycle(items, [], Parsed(bibs), AvailableNow, probe, nowMs, delay)
            == (Purge(InsertOrTouch(items, bibs, AvailableNow, nowSec), nowSec), Returned([], None))
  {
  }

  /** An unfolding of `CopyStep`: in a state where a copy is settled, handling it again changes nothing. */
  lemma SettledCopyIsSilent(s: PassState, item: LibraryItem, c: Copy, table: seq<Location>, nowMs: nat, delay: int)
    requires Settled(s.items, item.id, c.branchName, table, nowMs, delay)
    ensures CopyStep(s, item, c, table, nowMs, delay) == s
  {
  }

  lemma CopyStepKeepsSettled(s: PassState, item: LibraryItem, c: Copy, id: string, branchName: string,
                             table: seq<Location>, nowMs: nat, delay: int)
    requires nowMs >= 1000 && nowMs % 1000 <= delay
    requires Settled(s.items, id, branchName, table, nowMs, delay)
    ensures Settled(CopyStep(s, item, c, table, nowMs, delay).items, id, branchName, table, nowMs, delay)
  {
    match FindLocation(table, c.branchName)
    case None =>
    case Some(loc) =>
      match IndexOfId(s.items, item.id)
      case None =>
      case Some(i) =>
        StampKeepsSettled(s.items, i, loc, nowMs, delay, id, branchName, table);
  }

  lemma CopyStepSettlesOwn(s: PassState, item: LibraryItem, c: Copy, table: seq<Location>, nowMs: nat, delay: int)
    requires nowMs >= 1000 && nowMs % 1000 <= delay
    ensures Settled(CopyStep(s, item, c, table, nowMs, delay).items, item.id, c.branchName, table, nowMs, delay)
  {
    match FindLocation(table, c.branchName)
    case None =>
    case Some(loc) =>
      match IndexOfId(s.items, item.id)
      case None =>
      case Some(i) =>
        StampSettlesOwn(s.items, i, loc, nowMs, delay, item.id, c.branchName, table);
  }

  lemma {:induction false} CopiesPassKeepsSettled(s: PassState, item: LibraryItem, copies: seq<Copy>, id: string,
                                                  branchName: string, table: seq<Location>, nowMs: nat, delay: int)
    requires nowMs >= 1000 && nowMs % 1000 <= delay
    requires Settled(s.items, id, branchName, table, nowMs, delay)
    ensures Settled(CopiesPass(s, item, copies, table, nowMs, delay).items, id, branchName, table, nowMs, delay)
    decreases |copies|
  {
    if copies != [] {
      CopyStepKeepsSettled(s, item, copies[0], id, branchName, table, nowMs, delay);
      CopiesPassKeepsSettled(CopyStep(s, item, copies[0], table, nowMs, delay), item, copies[1..], id, branchName,
                             table, nowMs, delay);
    }
  }

  lemma {:induction false} CopiesPassSettlesAll(s: PassState, item: LibraryItem, copies: seq<Copy>,
                                                table: seq<Location>, nowMs: nat, delay: int)
    requires nowMs >= 1000 && nowMs % 1000 <= delay
    ensures forall m :: 0 <= m < |copies| ==>
              Settled(CopiesPass(s, item, copies, table, nowMs, delay).items, item.id, copies[m].branchName,
                      table, nowMs, delay)
    decreases |copies|
  {
    if copies != [] {
      var s1 := CopyStep(s, item, copies[0], table, nowMs, delay);
      var r := CopiesPass(s, item, copies, table, nowMs, delay);
      CopiesPassSettlesAll(s1, item, copies[1..], table, nowMs, delay);
      forall m | 0 <= m < |copies|
        ensures Settled(r.items, item.id, copies[m].branchName, table, nowMs, delay)
      {
        if m == 0 {
          CopyStepSettlesOwn(s, item, copies[0], table, nowMs, delay);
          CopiesPassKeepsSettled(s1, item, copies[1..], item.id, copies[0].branchName, table, nowMs, delay);
        } else {
          assert copies[m] == copies[1..][m - 1];
        }
      }
    }
  }

  lemma {:induction false} SettledCopiesAreSilent(s: PassState, item: LibraryItem, copies: seq<Copy>,
                                                  table: seq<Location>, nowMs: nat, delay: int)
    requires forall m :: 0 <= m < |copies| ==> Settled(s.items, item.id, copies[m].branchName, table, nowMs, delay)
    ensures CopiesPass(s, item, copies, table, nowMs, delay) == s
    decreases |copies|
  {
    if copies != [] {
      SettledCopyIsSilent(s, item, copies[0], table, nowMs, delay);
      SettledCopiesAreSilent(s, item, copies[1..], table, nowMs, delay);
    }
  }

  /** Every loanable copy of every wish-listed title is settled. */
  ghost predicate ProbeSettled(items: seq<LibraryItem>, wished: seq<LibraryItem>, probe: Probe, table: seq<Location>,
                               nowMs: nat, delay: int) {
    forall n, m :: 0 <= n < |wished| && LoanableCopies(probe, wished[n].id).Some?
                   && 0 <= m < |LoanableCopies(probe, wished[n].id).value| ==>
                     Settled(items, wished[n].id, LoanableCopies(probe, wished[n].id).value[m].branchName, table, nowMs, delay)
  }

  lemma {:induction false} ProbePassKeepsSettled(s: PassState, wished: seq<LibraryItem>, probe: Probe, id: string,
                                                 branchName: string, table: seq<Location>, nowMs: nat, delay: int)
    requires nowMs >= 1000 && nowMs % 1000 <= delay
    requires Settled(s.items, id, branchName, table, nowMs, delay)
    ensures Settled(ProbePass(s, wished, probe, table, nowMs, delay).state.items, id, branchName, table, nowMs, delay)
    decreases |wished|
  {
    if wished != [] && LoanableCopies(probe, wished[0].id).Some? {
      var copies := LoanableCopies(probe, wished[0].id).value;
      CopiesPassKeepsSettled(s, wished[0], copies, id, branchName, table, nowMs, delay);
      ProbePassKeepsSettled(CopiesPass(s, wished[0], copies, table, nowMs, delay), wished[1..], probe, id, branchName,
                            table, nowMs, delay);
    }
  }

  /** A probing that finishes leaves every copy it handled settled. */
  lemma {:induction false} ProbePassSettlesAll(s: PassState, wished: seq<LibraryItem>, probe: Probe,
                                               table: seq<Location>, nowMs: nat, delay: int)
    requires nowMs >= 1000 && nowMs % 1000 <= delay
    requires ProbePass(s, wished, probe, table, nowMs, delay).Finished?
    ensures ProbeSettled(ProbePass(s, wished, probe, table, nowMs, delay).state.items, wished, probe, table, nowMs, delay)
    decreases |wished|
  {
    if wished != [] {
      var copies := LoanableCopies(probe, wished[0].id).value;
      var s1 := CopiesPass(s, wished[0], copies, table, nowMs, delay);
      var r := ProbePass(s, wished, probe, table, nowMs, delay).state;
      ProbePassSettlesAll(s1, wished[1..], probe, table, nowMs, delay);
      CopiesPassSettlesAll(s, wished[0], copies, table, nowMs, delay);
      forall n, m | 0 <= n < |wished| && LoanableCopies(probe, wished[n].id).Some?
                    && 0 <= m < |LoanableCopies(probe, wished[n].id).value|
        ensures Settled(r.items, wished[n].id, LoanableCopies(probe, wished[n].id).value[m].branchName, table, nowMs, delay)
      {
        if n == 0 {
          ProbePassKeepsSettled(s1, wished[1..], probe, wished[0].id, copies[m].branchName, table, nowMs, delay);
        } else {
          assert wished[n] == wished[1..][n - 1];
        }
      }
    }
  }

  lemma {:induction false} SettledProbeIsSilent(s: PassState, wished: seq<LibraryItem>, probe: Probe,
                                                table: seq<Location>, nowMs: nat, delay: int)
    requires forall n :: 0 <= n < |wished| ==> probe(wished[n].id).Some?
    requires ProbeSettled(s.items, wished, probe, table, nowMs, delay)
    ensures ProbePass(s, wished, probe, table, nowMs, delay) == Finished(s)
    decreases |wished|
  {
    if wished != [] {
      var copies := LoanableCopies(probe, wished[0].id).value;
      SettledCopiesAreSilent(s, wished[0], copies, table, nowMs, delay);
      forall n, m | 0 <= n < |wished[1..]| && LoanableCopies(probe, wished[1..][n].id).Some?
                    && 0 <= m < |LoanableCopies(probe, wished[1..][n].id).value|
        ensures Settled(s.items, wished[1..][n].id, LoanableCopies(probe, wished[1..][n].id).value[m].branchName,
                        table, nowMs, delay)
      {
        assert wished[1..][n] == wished[n + 1];
      }
      SettledProbeIsSilent(s, wished[1..], probe, table, nowMs, delay);
    }
  }

  /** A probing that finishes met no failing probe. */
  lemma {:induction false} FinishedProbedAll(s: PassState, wished: seq<LibraryItem>, probe: Probe,
                                             table: seq<Location>, nowMs: nat, delay: int)
    requires ProbePass(s, wished, probe, table, nowMs, delay).Finished?
    ensures forall n :: 0 <= n < |wished| ==> probe(wished[n].id).Some?
    decreases |wished|
  {
    if wished != [] {
      var copies := LoanableCopies(probe, wished[0].id).value;
      FinishedProbedAll(CopiesPass(s, wished[0], copies, table, nowMs, delay), wished[1..], probe, table, nowMs, delay);
      forall n | 0 <= n < |wished|
        ensures probe(wished[n].id).Some?
      {
        if n > 0 {
          assert wished[n] == wished[1..][n - 1];
        }
      }
    }
  }

  /**
   * Debounce within a run: probing the same wish-listed titles again at the same
   * instant, against the same availability, fires nothing, stamps nothing and adds
   * no block (for an instant past the first second whose sub-second part is
   * within the delay).
   */
  lemma RepeatProbeIsSilent(s: PassState, wished: seq<LibraryItem>, probe: Probe, table: seq<Location>,
                            nowMs: nat, delay: int)
    requires nowMs >= 1000 && nowMs % 1000 <= delay
    requires ProbePass(s, wished, probe, table, nowMs, delay).Finished?
    ensures var r := ProbePass(s, wished, probe, table, nowMs, delay).state;
            ProbePass(r, wished, probe, table, nowMs, delay) == Finished(r)
  {
    var r := ProbePass(s, wished, probe, table, nowMs, delay).state;
    ProbePassSettlesAll(s, wished, probe, table, nowMs, delay);
    FinishedProbedAll(s, wished, probe, table, nowMs, delay);
    SettledProbeIsSilent(r, wished, probe, table, nowMs, delay);
  }

  /**
   * Once every stored on-order item carries a notify date, the next on-order
   * merge and purge leave awaiting only records appended for bibs whose id was
   * not stored, so every block of the next alert names such a new title.
   */
  lemma OnOrderAlertsOnlyNewBibs(store: seq<LibraryItem>, bibs: seq<Bib>, nowMs: nat, k: int)
    requires forall j :: 0 <= j < |store| ==> !AwaitsOnOrderAlert(store[j])
    requires 0 <= k < |OnOrderBlocks(Purge(InsertOrTouch(store, bibs, OnOrder, NowSec(nowMs)), NowSec(nowMs)))|
    ensures exists n :: 0 <= n < |bibs| && IndexOfId(store, bibs[n].id).None?
              && OnOrderBlocks(Purge(InsertOrTouch(store, bibs, OnOrder, NowSec(nowMs)), NowSec(nowMs)))[k]
                 == OnOrderBlock(NewItem(bibs[n], OnOrder, NowSec(nowMs)))
  {
    var merged := Purge(InsertOrTouch(store, bibs, OnOrder, NowSec(nowMs)), NowSec(nowMs));
    OnOrderBlocksFromAwaiting(merged, k);
    var j :| 0 <= j < |merged| && AwaitsOnOrderAlert(merged[j]) && OnOrderBlocks(merged)[k] == OnOrderBlock(merged[j]);
    AwaitingIsNew(store, bibs, NowSec(nowMs), merged[j]);
  }

  /** With every stored item settled, an item awaiting its alert after the merge was appended for a new bib. */
  lemma AwaitingIsNew(store: seq<LibraryItem>, bibs: seq<Bib>, nowSec: int, item: LibraryItem)
    requires forall j :: 0 <= j < |store| ==> !AwaitsOnOrderAlert(store[j])
    requires item in InsertOrTouch(store, bibs, OnOrder, nowSec) && AwaitsOnOrderAlert(item)
    ensures exists n :: 0 <= n < |bibs| && IndexOfId(store, bibs[n].id).None? && item == NewItem(bibs[n], OnOrder, nowSec)
  {
    var touched := InsertOrTouch(store, bibs, OnOrder, nowSec);
    var p :| 0 <= p < |touched| && touched[p] == item;
    InsertOrTouchPrefix(store, bibs, OnOrder, nowSec);
    if p >= |store| {
      InsertOrTouchAppended(store, bibs, OnOrder, nowSec);
    }
  }

  /**
   * An on-order title is announced once: a second on-order scrape, at any later
   * time, on a page that lists no id the first page did not, sends no alert.
   */
  lemma ScrapeOnOrderSingleFire(items: seq<LibraryItem>, wishList: seq<string>, bibs1: seq<Bib>, bibs2: seq<Bib>,
                                probe: Probe, nowMs1: nat, nowMs2: nat, delay: int)
    requires nowMs1 >= 1000
    requires IdsListedIn(bibs2, bibs1)
    ensures var first := ScrapeCycle(items, wishList, Parsed(bibs1), OnOrder, probe, nowMs1, delay);
            var second := ScrapeCycle(first.0, wishList, Parsed(bibs2), OnOrder, probe, nowMs2, delay);
            second.1.Returned? && second.1.notification == None
  {
    var nowSec1 := NowSec(nowMs1);
    var store1 := StampOnOrder(Purge(InsertOrTouch(items, bibs1, OnOrder, nowSec1), nowSec1), nowSec1);
    var merged2 := Purge(InsertOrTouch(store1, bibs2, OnOrder, NowSec(nowMs2)), NowSec(nowMs2));
    assert ScrapeCycle(items, wishList, Parsed(bibs1), OnOrder, probe, nowMs1, delay).0 == store1;
    assert ScrapeCycle(store1, wishList, Parsed(bibs2), OnOrder, probe, nowMs2, delay).1.notification
           == AlertMessage(OnOrder, OnOrderBlocks(merged2));
    SecondScrapeHasNoBlocks(items, bibs1, bibs2, nowMs1, nowMs2);
  }

  /** The on-order blocks of the second scrape of the single-alert property are empty. */
  lemma SecondScrapeHasNoBlocks(items: seq<LibraryItem>, bibs1: seq<Bib>, bibs2: seq<Bib>, nowMs1: nat, nowMs2: nat)
    requires nowMs1 >= 1000
    requires IdsListedIn(bibs2, bibs1)
    ensures var nowSec1 := NowSec(nowMs1);
            var store1 := StampOnOrder(Purge(InsertOrTouch(items, bibs1, OnOrder, nowSec1), nowSec1), nowSec1);
            OnOrderBlocks(Purge(InsertOrTouch(store1, bibs2, OnOrder, NowSec(nowMs2)), NowSec(nowMs2))) == []
  {
    var nowSec1 := NowSec(nowMs1);
    var store1 := StampOnOrder(Purge(InsertOrTouch(items, bibs1, OnOrder, nowSec1), nowSec1), nowSec1);
    var merged2 := Purge(InsertOrTouch(store1, bibs2, OnOrder, NowSec(nowMs2)), NowSec(nowMs2));
    if OnOrderBlocks(merged2) != [] {
      OnOrderAlertsOnlyNewBibs(store1, bibs2, nowMs2, 0);
      var n :| 0 <= n < |bibs2| && IndexOfId(store1, bibs2[n].id).None?;
      var m :| 0 <= m < |bibs1| && bibs2[n].id == bibs1[m].id;
      PageTitlesSurvivePurge(items, bibs1, OnOrder, nowMs1, m);
      assert false;
    }
  }
}
