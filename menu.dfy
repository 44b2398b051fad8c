/**
 The menu: one record per row of the menu table (columns `Deal`,
 `Price (in Rs.)` and `Description`) in table order, and the lookup of a deal
 by name (`get_item_details`, app.py lines 62-66).
 */
module Menu {
  import opened Wrappers
  import opened Text

  /** One menu row. The price is the whole number of rupees. */
  datatype Item = Item(deal: string, price: nat, description: string)

  /** The row's `Deal` equals `query` once both are lower-cased. */
  predicate SameName(item: Item, query: string) {
    Lower(item.deal) == Lower(query)
  }

  /** The first row, in menu order, whose `Deal` equals `query` ignoring case,
      or `None` when there is no such row. */
  function Lookup(query: string, menu: seq<Item>): (r: Option<Item>)
    ensures r.None? <==> forall i :: 0 <= i < |menu| ==> !SameName(menu[i], query)
    ensures r.Some? ==> r.value in menu && SameName(r.value, query)
    ensures forall i ::
      (0 <= i < |menu| && SameName(menu[i], query) &&
       (forall j :: 0 <= j < i ==> !SameName(menu[j], query))) ==> r == Some(menu[i])
  {
    if menu == [] then None
    else if SameName(menu[0], query) then Some(menu[0])
    else
      assert forall i :: 1 <= i < |menu| ==> menu[i] == menu[1..][i - 1];
      Lookup(query, menu[1..])
  }

  /** `get_item_details(deal_name, menu)`: the loop over the menu with an
      early return on the first match. */
  method GetItemDetails(dealName: string, menu: seq<Item>) returns (r: Option<Item>)
    ensures r == Lookup(dealName, menu)
  {
    for i := 0 to |menu|
      invariant forall j :: 0 <= j < i ==> !SameName(menu[j], dealName)
    {
      if Lower(menu[i].deal) == Lower(dealName) {
        return Some(menu[i]);
      }
    }
    return None;
  }

  /** Every row can be found by its own name in any casing: the lookup then
      yields the first row with the same lower-cased name, which is that row
      or one before it. */
  lemma {:induction false} LookupFindsEveryRow(menu: seq<Item>, i: int, query: string)
    requires 0 <= i < |menu| && Lower(query) == Lower(menu[i].deal)
    ensures exists k ::
      0 <= k <= i && Lookup(query, menu) == Some(menu[k]) && Lower(menu[k].deal) == Lower(menu[i].deal)
  {
    if SameName(menu[0], query) {
      assert Lookup(query, menu) == Some(menu[0]);
    } else {
      LookupFindsEveryRow(menu[1..], i - 1, query);
      var k :| 0 <= k <= i - 1 && Lookup(query, menu[1..]) == Some(menu[1..][k]) &&
        Lower(menu[1..][k].deal) == Lower(menu[1..][i - 1].deal);
      assert menu[1..][k] == menu[k + 1];
    }
  }

  /** Names are distinct once lower-cased. */
  predicate DistinctNames(menu: seq<Item>) {
    forall i, j :: 0 <= i < j < |menu| ==> Lower(menu[i].deal) != Lower(menu[j].deal)
  }

  /** With distinct names, looking a row up by its own name in any casing
      returns exactly that row. */
  lemma LookupOwnRow(menu: seq<Item>, i: int, query: string)
    requires DistinctNames(menu)
    requires 0 <= i < |menu| && Lower(query) == Lower(menu[i].deal)
    ensures Lookup(query, menu) == Some(menu[i])
  {
    assert forall j :: 0 <= j < i ==> !SameName(menu[j], query);
  }

  /** The lookup depends on the query only through its lower-cased form. */
  lemma {:induction false} LookupIgnoresCase(q1: string, q2: string, menu: seq<Item>)
    requires Lower(q1) == Lower(q2)
    ensures Lookup(q1, menu) == Lookup(q2, menu)
  {
    if menu != [] {
      LookupIgnoresCase(q1, q2, menu[1..]);
    }
  }
}
