/**
 * The data side of `src/DailyLog.jsx`: the day's total, the entries grouped
 * by category (missing category shown as "Other"), and the category names
 * in the order `Object.keys(grouped).sort()` lists them.
 */
module DailyLog {
  import opened Entries
  import opened Grouping
  import opened Sorting
  import opened Text

  /** `logs.reduce` by category. */
  function Grouped(logs: seq<Entry>): seq<Group> {
    GroupBy(logs, Category)
  }

  /** The default `sort()` on strings: code-point order. */
  function Categories(logs: seq<Entry>): seq<string> {
    SortBy(Keys(Grouped(logs)), LexBefore)
  }

  /** The category list is strictly ascending (so has no repeats) and names
      exactly the groups, which are exactly the categories of the entries,
      a missing one counting as "Other". */
  lemma CategoriesSpec(logs: seq<Entry>)
    ensures forall i, j :: 0 <= i < j < |Categories(logs)| ==> LexBefore(Categories(logs)[i], Categories(logs)[j])
    ensures forall k :: k in Categories(logs) <==> k in Keys(Grouped(logs))
    ensures forall k :: k in Categories(logs) <==> exists e :: e in logs && Key(e, Category) == k
    ensures |Categories(logs)| == |Grouped(logs)|
  {
    var gs := Grouped(logs);
    var ks := Keys(gs);
    var cs := Categories(logs);
    GroupByKeys(logs, Category);
    LexOrderIsWeak();
    SortBySorted(ks, LexBefore);
    assert Distinct(ks);
    PermutationKeepsDistinct(ks, cs);
    forall i, j | 0 <= i < j < |cs|
      ensures LexBefore(cs[i], cs[j])
    {
      LexTotal(cs[i], cs[j]);
    }
    forall k
      ensures k in cs <==> k in ks
      ensures k in ks <==> exists e :: e in logs && Key(e, Category) == k
    {
      assert k in cs <==> k in multiset(cs);
      assert k in ks <==> k in multiset(ks);
      assert k in ks <==> k in KeySet(gs);
    }
  }

  /** Every entry is in exactly one group, the one for its category, and
      each group lists its entries in input order. */
  lemma GroupedSpec(logs: seq<Entry>)
    ensures forall e, i :: e in logs && 0 <= i < |Grouped(logs)| ==>
      (e in Grouped(logs)[i].entries <==> Grouped(logs)[i].key == Key(e, Category))
    ensures forall i :: 0 <= i < |Grouped(logs)| ==>
      Grouped(logs)[i].entries == Filter(logs, Category, Grouped(logs)[i].key, true)
    ensures multiset(Flatten(Grouped(logs))) == multiset(logs)
  {
    GroupByEntries(logs, Category);
    GroupByPartitions(logs, Category);
    forall i | 0 <= i < |Grouped(logs)|
      ensures forall e :: e in Grouped(logs)[i].entries <==> e in logs && Key(e, Category) == Grouped(logs)[i].key
    {
      FilterContents(logs, Category, Grouped(logs)[i].key, true);
    }
  }

  /** The displayed total equals the hours summed group by group. */
  lemma TotalIsSumOfGroups(logs: seq<Entry>)
    ensures SumHours(logs) == SumGroups(Grouped(logs))
  {
    GroupByPartitions(logs, Category);
  }
}
