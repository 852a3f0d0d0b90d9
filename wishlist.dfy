/**
 * The wish list of wishlistHandler.js: `addWishListItem` appends the posted
 * title without any duplicate check; `removeWishListItem` looks for the first
 * entry equal to the title once both are lower-cased and either splices that
 * one entry out or answers 404 with the current entries.
 */
module WishList {
  import opened Catalog
  import Text

  /** `a.toLowerCase() === b.toLowerCase()` */
  predicate SameIgnoringCase(a: string, b: string) {
    Text.Lower(a) == Text.Lower(b)
  }

  /** What the handler sends back: the list, or a status with a plain-text body. */
  datatype Response = Ok(items: seq<string>) | NotFound(status: int, message: string)

  const NOT_FOUND_STATUS := 404

  function NotFoundMessage(title: string, list: seq<string>): string {
    title + " not found in wish list. Wish list items are: " + Text.Join(list, ", ") + "."
  }

  /** The index `findIndex` returns, `None` standing for -1. */
  function FirstMatch(list: seq<string>, title: string): (r: Option<nat>)
    ensures r.Some? ==> r.value < |list| && SameIgnoringCase(list[r.value], title)
    ensures r.Some? ==> forall k :: 0 <= k < r.value ==> !SameIgnoringCase(list[k], title)
    ensures r.None? <==> forall k :: 0 <= k < |list| ==> !SameIgnoringCase(list[k], title)
  {
    if list == [] then None
    else if SameIgnoringCase(list[0], title) then Some(0)
    else match FirstMatch(list[1..], title)
      case None => None
      case Some(k) => Some(k + 1)
  }

  /** The list after a removal request, and the response. */
  function Remove(list: seq<string>, title: string): (seq<string>, Response) {
    match FirstMatch(list, title)
    case None => (list, NotFound(NOT_FOUND_STATUS, NotFoundMessage(title, list)))
    case Some(i) => (list[..i] + list[i + 1..], Ok(list[..i] + list[i + 1..]))
  }

  /** The `findIndex` scan, left to right. */
  method FindIndex(list: seq<string>, title: string) returns (index: int)
    ensures -1 <= index < |list|
    ensures index == -1 <==> forall k :: 0 <= k < |list| ==> !SameIgnoringCase(list[k], title)
    ensures index >= 0 ==> SameIgnoringCase(list[index], title)
    ensures index >= 0 ==> forall k :: 0 <= k < index ==> !SameIgnoringCase(list[k], title)
  {
    var lowered := Text.Lower(title);
    var k := 0;
    while k < |list|
      invariant 0 <= k <= |list|
      invariant forall j :: 0 <= j < k ==> !SameIgnoringCase(list[j], title)
    {
      if Text.Lower(list[k]) == lowered {
        return k;
      }
      k := k + 1;
    }
    return -1;
  }

  /** `wishListItems.push(title)`; the response is the whole list. */
  method AddWishListItem(store: Store, title: string) returns (response: Response)
    modifies store
    ensures store.wishListItems == old(store.wishListItems) + [title]
    ensures store.libraryItems == old(store.libraryItems)
    ensures response == Ok(store.wishListItems)
  {
    store.wishListItems := store.wishListItems + [title];
    response := Ok(store.wishListItems);
  }

  /** `findIndex`, then `splice(index, 1)` or the 404 answer. */
  method RemoveWishListItem(store: Store, title: string) returns (response: Response)
    modifies store
    ensures (store.wishListItems, response) == Remove(old(store.wishListItems), title)
    ensures store.libraryItems == old(store.libraryItems)
  {
    var list := store.wishListItems;
    var index := FindIndex(list, title);
    if index == -1 {
      response := NotFound(NOT_FOUND_STATUS, NotFoundMessage(title, list));
    } else {
      store.wishListItems := list[..index] + list[index + 1..];
      response := Ok(store.wishListItems);
    }
  }

  /**
   * A removal that finds a match deletes exactly the first case-insensitive match:
   * one entry shorter, the entries before and after it in their order (so later
   * case-insensitive duplicates remain); otherwise nothing changes and the answer
   * is a 404.
   */
  lemma RemoveSpec(list: seq<string>, title: string)
    ensures FirstMatch(list, title).None? ==>
              Remove(list, title).0 == list && Remove(list, title).1.NotFound?
              && Remove(list, title).1.status == 404
    ensures FirstMatch(list, title).Some? ==>
              var i := FirstMatch(list, title).value;
              var rest := Remove(list, title).0;
              && |rest| == |list| - 1
              && (forall j :: 0 <= j < i ==> rest[j] == list[j])
              && (forall j :: i < j < |list| ==> rest[j - 1] == list[j])
              && Remove(list, title).1 == Ok(rest)
  {
  }

  /** A later entry equal to the title ignoring case survives the removal of the first one. */
  lemma {:induction false} RemoveKeepsLaterDuplicates(list: seq<string>, title: string, j: int)
    requires FirstMatch(list, title).Some?
    requires FirstMatch(list, title).value < j < |list|
    requires SameIgnoringCase(list[j], title)
    ensures j - 1 < |Remove(list, title).0| && Remove(list, title).0[j - 1] == list[j]
    ensures FirstMatch(Remove(list, title).0, title).Some?
  {
    var i := FirstMatch(list, title).value;
    var rest := list[..i] + list[i + 1..];
    assert rest[j - 1] == list[j];
    assert SameIgnoringCase(rest[j - 1], title);
  }

  /** The 404 body names every current entry. */
  lemma NotFoundListsEntries(title: string, list: seq<string>, k: int)
    requires 0 <= k < |list|
    ensures Text.Contains(NotFoundMessage(title, list), list[k])
  {
    var prefix := title + " not found in wish list. Wish list items are: ";
    var joined := Text.Join(list, ", ");
    Text.JoinHasPart(list, ", ", k);
    Text.ContainsSpec(joined, list[k]);
    var i :| Text.OccursAt(joined, list[k], i);
    Text.OccursInRight(prefix, joined, list[k], i);
    Text.OccursInLeft(prefix + joined, ".", list[k], |prefix| + i);
    Text.ContainsSpec(NotFoundMessage(title, list), list[k]);
  }

  /** Adding a phrase with no case-insensitive equal in the list and removing it again restores the list. */
  lemma AddThenRemoveRestores(list: seq<string>, title: string)
    requires forall k :: 0 <= k < |list| ==> !SameIgnoringCase(list[k], title)
    ensures Remove(list + [title], title) == (list, Ok(list))
  {
    var added := list + [title];
    assert FirstMatch(added, title) == Some(|list|) by {
      assert SameIgnoringCase(added[|list|], title);
      forall k | 0 <= k < |list| ensures !SameIgnoringCase(added[k], title) {
        assert added[k] == list[k];
      }
    }
    assert added[..|list|] + added[|list| + 1..] == list;
  }

  /** Removing "ghost" from ["dune"]: the list is unchanged and the 404 body lists "dune". */
  lemma RemoveMissingScenario()
    ensures Remove(["dune"], "ghost").0 == ["dune"]
    ensures Remove(["dune"], "ghost").1 == NotFound(404, NotFoundMessage("ghost", ["dune"]))
    ensures Text.Contains(Remove(["dune"], "ghost").1.message, "dune")
  {
    assert Text.Lower("dune")[0] == 'd';
    assert Text.Lower("ghost")[0] == 'g';
    assert !SameIgnoringCase("dune", "ghost");
    assert ["dune"][1..] == [];
    assert FirstMatch(["dune"], "ghost") == None;
    NotFoundListsEntries("ghost", ["dune"], 0);
  }
}
