/**
 * Enrichment: turns the detection counter into the loot report, keyed by the
 * catalog's display name, with price and category from the item table.
 */
module Enrichment {

  /** One row of the item table: display name, price and category of a template file. */
  datatype ItemInfo = ItemInfo(name: string, price: int, category: string)

  /** One entry of the report. */
  datatype LootEntry = LootEntry(price: int, quantity: int, category: string)

  /** The report key of a file name: its display name if the table knows it, else the file name itself. */
  function KeyOf(filename: string, table: map<string, ItemInfo>): string {
    if filename in table then table[filename].name else filename
  }

  /** The report entry of one counter item; an unknown file gets price 0 and category "unknown". */
  function EntryOf(filename: string, quantity: int, table: map<string, ItemInfo>): LootEntry {
    if filename in table then LootEntry(table[filename].price, quantity, table[filename].category)
    else LootEntry(0, quantity, "unknown")
  }

  /** The report after the items have been written in order, later writes replacing earlier ones. */
  function Formatted(items: seq<(string, int)>, table: map<string, ItemInfo>): map<string, LootEntry> {
    if items == [] then map[]
    else
      var n := |items| - 1;
      Formatted(items[..n], table)[KeyOf(items[n].0, table) := EntryOf(items[n].0, items[n].1, table)]
  }

  /** Builds the report by writing one entry per counter item. */
  method FormatLootData(items: seq<(string, int)>, table: map<string, ItemInfo>)
    returns (formatted: map<string, LootEntry>)
    ensures formatted == Formatted(items, table)
  {
    formatted := map[];
    for i := 0 to |items|
      invariant formatted == Formatted(items[..i], table)
    {
      var (filename, quantity) := items[i];
      if filename in table {
        var info := table[filename];
        formatted := formatted[info.name := LootEntry(info.price, quantity, info.category)];
      } else {
        formatted := formatted[filename := LootEntry(0, quantity, "unknown")];
      }
      assert items[..i + 1][..i] == items[..i];
    }
    assert items[..|items|] == items;
  }

  /** The report has one key per distinct item key and no other. */
  lemma {:induction false} FormattedKeys(items: seq<(string, int)>, table: map<string, ItemInfo>)
    ensures forall k :: k in Formatted(items, table) <==>
              exists i :: 0 <= i < |items| && KeyOf(items[i].0, table) == k
  {
    if items != [] {
      var n := |items| - 1;
      FormattedKeys(items[..n], table);
      forall k | (exists i :: 0 <= i < |items| && KeyOf(items[i].0, table) == k)
        ensures k in Formatted(items, table)
      {
        var i :| 0 <= i < |items| && KeyOf(items[i].0, table) == k;
        if i < n {
          assert items[..n][i] == items[i];
        }
      }
      forall k | k in Formatted(items, table)
        ensures exists i :: 0 <= i < |items| && KeyOf(items[i].0, table) == k
      {
        if k != KeyOf(items[n].0, table) {
          assert k in Formatted(items[..n], table);
          var i :| 0 <= i < n && KeyOf(items[..n][i].0, table) == k;
          assert items[i] == items[..n][i];
        }
      }
    }
  }

  /**
   * The entry under a key is written by the last item with that key: a known
   * file gives its catalog price and category, an unknown one price 0 and
   * category "unknown", and both carry the item's count as quantity.
   */
  lemma {:induction false} FormattedLast(items: seq<(string, int)>, table: map<string, ItemInfo>, i: nat)
    requires i < |items|
    requires forall j :: i < j < |items| ==> KeyOf(items[j].0, table) != KeyOf(items[i].0, table)
    ensures var (f, q) := items[i];
            var report := Formatted(items, table);
            (f in table ==> table[f].name in report && report[table[f].name] == LootEntry(table[f].price, q, table[f].category)) &&
            (f !in table ==> f in report && report[f] == LootEntry(0, q, "unknown"))
  {
    var n := |items| - 1;
    if i < n {
      forall j | i < j < n ensures KeyOf(items[..n][j].0, table) != KeyOf(items[..n][i].0, table) {
        assert items[..n][j] == items[j];
      }
      FormattedLast(items[..n], table, i);
      assert items[..n][i] == items[i];
    }
  }

  /** Every entry of the report was written by some item whose key it is. */
  lemma {:induction false} FormattedEntry(items: seq<(string, int)>, table: map<string, ItemInfo>, k: string)
    requires k in Formatted(items, table)
    ensures exists i :: 0 <= i < |items| && KeyOf(items[i].0, table) == k &&
              Formatted(items, table)[k] == EntryOf(items[i].0, items[i].1, table)
  {
    var n := |items| - 1;
    if k != KeyOf(items[n].0, table) {
      FormattedEntry(items[..n], table, k);
      var i :| 0 <= i < n && KeyOf(items[..n][i].0, table) == k &&
               Formatted(items[..n], table)[k] == EntryOf(items[..n][i].0, items[..n][i].1, table);
      assert items[..n][i] == items[i];
    }
  }
}
