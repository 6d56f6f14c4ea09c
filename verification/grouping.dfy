/**
 * Grouping entries by one field into an object whose keys keep their
 * insertion order, as `DailyLog.jsx` does with
 * `logs.reduce((acc, log) => { (acc[k] ||= []).push(log); return acc }, {})`.
 * A JavaScript object with string keys is modelled as a sequence of groups
 * in key-insertion order.
 */
module Grouping {
  import opened Entries

  datatype Group = Group(key: string, entries: seq<Entry>)

  /** `Object.keys(groups)`. */
  function Keys(gs: seq<Group>): (ks: seq<string>)
    ensures |ks| == |gs| && forall i :: 0 <= i < |gs| ==> ks[i] == gs[i].key
  {
    if |gs| == 0 then [] else [gs[0].key] + Keys(gs[1..])
  }

  ghost predicate DistinctKeys(gs: seq<Group>) {
    forall i, j :: 0 <= i < j < |gs| ==> gs[i].key != gs[j].key
  }

  ghost predicate NonEmptyGroups(gs: seq<Group>) {
    forall i :: 0 <= i < |gs| ==> gs[i].entries != []
  }

  /** Where key `k` sits in an object's key list: its index, or `|ks|`
      when the object has no such key. */
  function Find(ks: seq<string>, k: string): (i: nat)
    ensures i <= |ks|
    ensures i < |ks| ==> ks[i] == k
    ensures forall j :: 0 <= j < i ==> ks[j] != k
  {
    if |ks| == 0 then 0
    else if ks[0] == k then 0
    else 1 + Find(ks[1..], k)
  }

  /** One reduce step: push `e` onto the group for `k`, opening it at the
      end when `k` is new. */
  function AddToGroup(gs: seq<Group>, k: string, e: Entry): seq<Group> {
    var i := Find(Keys(gs), k);
    if i < |gs| then gs[i := Group(k, gs[i].entries + [e])] else gs + [Group(k, [e])]
  }

  /** The whole reduce, left to right over the entries. */
  function GroupBy(logs: seq<Entry>, f: Field): seq<Group> {
    if |logs| == 0 then []
    else
      var n := |logs| - 1;
      AddToGroup(GroupBy(logs[..n], f), Key(logs[n], f), logs[n])
  }

  /** A reduce step either pushes onto the existing group for `k` or,
      when no group has that key, appends a new one. */
  lemma AddToGroupCases(gs: seq<Group>, k: string, e: Entry)
    ensures var i := Find(Keys(gs), k);
      || (i < |gs| && gs[i].key == k
          && AddToGroup(gs, k, e) == gs[i := Group(k, gs[i].entries + [e])])
      || (i == |gs| && (forall j :: 0 <= j < |gs| ==> gs[j].key != k)
          && AddToGroup(gs, k, e) == gs + [Group(k, [e])])
  {
  }

  /** The last reduce step of `GroupBy`. */
  lemma GroupByLast(logs: seq<Entry>, f: Field)
    requires |logs| > 0
    ensures GroupBy(logs, f)
         == AddToGroup(GroupBy(logs[..|logs| - 1], f), Key(logs[|logs| - 1], f), logs[|logs| - 1])
  {
  }

  /** The values field `f` takes in `logs`. */
  ghost function Values(logs: seq<Entry>, f: Field): set<string> {
    set e | e in logs :: Key(e, f)
  }

  ghost function KeySet(gs: seq<Group>): set<string> {
    set i | 0 <= i < |gs| :: gs[i].key
  }

  /** All entries of all groups, group after group. */
  function Flatten(gs: seq<Group>): seq<Entry> {
    if |gs| == 0 then [] else gs[0].entries + Flatten(gs[1..])
  }

  /** Total hours over all groups. */
  function SumGroups(gs: seq<Group>): real {
    if |gs| == 0 then 0.0 else SumHours(gs[0].entries) + SumGroups(gs[1..])
  }

  /** The first position in `logs` whose field `f` is `k`, or `|logs|`. */
  function FirstIndex(logs: seq<Entry>, f: Field, k: string): (i: nat)
    ensures i <= |logs|
    ensures i < |logs| ==> Key(logs[i], f) == k
    ensures forall j :: 0 <= j < i ==> Key(logs[j], f) != k
  {
    if |logs| == 0 then 0
    else if Key(logs[0], f) == k then 0
    else 1 + FirstIndex(logs[1..], f, k)
  }

  lemma KeySetOfPrefix(logs: seq<Entry>, f: Field)
    requires |logs| > 0
    ensures Values(logs, f) == Values(logs[..|logs| - 1], f) + {Key(logs[|logs| - 1], f)}
  {
    var n := |logs| - 1;
    assert logs == logs[..n] + [logs[n]];
    forall k | k in Values(logs, f)
      ensures k in Values(logs[..n], f) + {Key(logs[n], f)}
    {
      var e :| e in logs && Key(e, f) == k;
      if e != logs[n] {
        var j :| 0 <= j < |logs| && logs[j] == e;
        assert j < n && logs[..n][j] == e;
      }
    }
  }

  /** Replacing a group by one with the same key and some entries keeps
      the keys as they are. */
  lemma PushKeySet(gs: seq<Group>, i: nat, g: Group)
    requires i < |gs| && g.key == gs[i].key && g.entries != []
    requires DistinctKeys(gs)
    requires NonEmptyGroups(gs)
    ensures DistinctKeys(gs[i := g])
    ensures NonEmptyGroups(gs[i := g])
    ensures KeySet(gs[i := g]) == KeySet(gs)
  {
    var u := gs[i := g];
    assert forall j :: 0 <= j < |u| ==> u[j].key == gs[j].key;
  }

  /** Appending a group with a new key and some entries adds that key. */
  lemma AppendKeySet(gs: seq<Group>, g: Group)
    requires forall j :: 0 <= j < |gs| ==> gs[j].key != g.key
    requires g.entries != []
    requires DistinctKeys(gs)
    requires NonEmptyGroups(gs)
    ensures DistinctKeys(gs + [g])
    ensures NonEmptyGroups(gs + [g])
    ensures KeySet(gs + [g]) == KeySet(gs) + {g.key}
  {
    var u := gs + [g];
    forall x | x in KeySet(u) ensures x in KeySet(gs) + {g.key} {
      var j :| 0 <= j < |u| && u[j].key == x;
      if j < |gs| { assert gs[j].key == x; }
    }
    forall x | x in KeySet(gs) ensures x in KeySet(u) {
      var j :| 0 <= j < |gs| && gs[j].key == x;
      assert u[j].key == x;
    }
    assert u[|gs|].key == g.key;
  }

  /** A reduce step keeps keys distinct and groups non-empty, and adds
      `k` to the key set. */
  lemma AddToGroupKeySet(gs: seq<Group>, k: string, e: Entry)
    requires DistinctKeys(gs)
    requires NonEmptyGroups(gs)
    ensures DistinctKeys(AddToGroup(gs, k, e))
    ensures NonEmptyGroups(AddToGroup(gs, k, e))
    ensures KeySet(AddToGroup(gs, k, e)) == KeySet(gs) + {k}
  {
    AddToGroupCases(gs, k, e);
    var i := Find(Keys(gs), k);
    if i < |gs| {
      PushKeySet(gs, i, Group(k, gs[i].entries + [e]));
      assert k in KeySet(gs);
    } else {
      AppendKeySet(gs, Group(k, [e]));
    }
  }

  /** Keys are distinct, every group is non-empty, and the keys are exactly
      the values the field takes in the input. */
  lemma {:induction false} GroupByKeys(logs: seq<Entry>, f: Field)
    ensures DistinctKeys(GroupBy(logs, f))
    ensures NonEmptyGroups(GroupBy(logs, f))
    ensures KeySet(GroupBy(logs, f)) == Values(logs, f)
  {
    if |logs| > 0 {
      var n := |logs| - 1;
      GroupByKeys(logs[..n], f);
      KeySetOfPrefix(logs, f);
      GroupByLast(logs, f);
      AddToGroupKeySet(GroupBy(logs[..n], f), Key(logs[n], f), logs[n]);
    }
  }

  /** A value outside `Values` is carried by no entry. */
  lemma NewKeyAbsent(logs: seq<Entry>, f: Field, k: string)
    requires k !in Values(logs, f)
    ensures forall e :: e in logs ==> Key(e, f) != k
    ensures FirstIndex(logs, f, k) == |logs|
  {
    assert forall j :: 0 <= j < |logs| ==> logs[j] in logs && Key(logs[j], f) in Values(logs, f);
  }

  /** Each group holds exactly the input entries with its key, in input
      order: every entry lands in the one group named by its field. */
  lemma {:induction false} GroupByEntries(logs: seq<Entry>, f: Field)
    ensures forall i :: 0 <= i < |GroupBy(logs, f)| ==>
      GroupBy(logs, f)[i].entries == Filter(logs, f, GroupBy(logs, f)[i].key, true)
  {
    if |logs| > 0 {
      var n := |logs| - 1;
      GroupByEntries(logs[..n], f);
      GroupByKeys(logs[..n], f);
      GroupByLast(logs, f);
      EntriesStep(logs, f, GroupBy(logs[..n], f), GroupBy(logs, f));
    }
  }

  lemma EntriesStep(logs: seq<Entry>, f: Field, prev: seq<Group>, gs: seq<Group>)
    requires |logs| > 0
    requires forall i :: 0 <= i < |prev| ==>
      prev[i].entries == Filter(logs[..|logs| - 1], f, prev[i].key, true)
    requires DistinctKeys(prev) && KeySet(prev) == Values(logs[..|logs| - 1], f)
    requires gs == AddToGroup(prev, Key(logs[|logs| - 1], f), logs[|logs| - 1])
    ensures forall j :: 0 <= j < |gs| ==> gs[j].entries == Filter(logs, f, gs[j].key, true)
  {
    var n := |logs| - 1;
    var x := logs[n];
    var k := Key(x, f);
    AddToGroupCases(prev, k, x);
    var i := Find(Keys(prev), k);
    forall j | 0 <= j < |gs|
      ensures gs[j].entries == Filter(logs, f, gs[j].key, true)
    {
      FilterLast(logs, f, gs[j].key, true);
      if j == |prev| {
        // a new group: no earlier entry had this key
        assert k !in KeySet(prev);
        NewKeyAbsent(logs[..n], f, k);
        FilterNonePass(logs[..n], f, k, true);
      } else if j != i {
        assert prev[j].key != k;
      }
    }
  }

  lemma {:induction false} FlattenAppend(gs: seq<Group>, g: Group)
    ensures Flatten(gs + [g]) == Flatten(gs) + g.entries
  {
    if |gs| > 0 {
      FlattenAppend(gs[1..], g);
      assert (gs + [g])[1..] == gs[1..] + [g];
    } else {
      assert Flatten([g]) == g.entries + Flatten([]);
    }
  }

  lemma {:induction false} FlattenPush(gs: seq<Group>, i: nat, e: Entry)
    requires i < |gs|
    ensures multiset(Flatten(gs[i := Group(gs[i].key, gs[i].entries + [e])]))
            == multiset(Flatten(gs)) + multiset{e}
    ensures SumGroups(gs[i := Group(gs[i].key, gs[i].entries + [e])]) == SumGroups(gs) + e.hours
  {
    var u := gs[i := Group(gs[i].key, gs[i].entries + [e])];
    if i == 0 {
      assert u[1..] == gs[1..];
      assert (gs[0].entries + [e])[..|gs[0].entries + [e]| - 1] == gs[0].entries;
    } else {
      FlattenPush(gs[1..], i - 1, e);
      assert u[1..] == gs[1..][i - 1 := Group(gs[i].key, gs[i].entries + [e])];
    }
  }

  lemma {:induction false} SumGroupsAppend(gs: seq<Group>, g: Group)
    ensures SumGroups(gs + [g]) == SumGroups(gs) + SumHours(g.entries)
  {
    if |gs| > 0 {
      SumGroupsAppend(gs[1..], g);
      assert (gs + [g])[1..] == gs[1..] + [g];
    }
  }

  /** A reduce step adds its entry to the flattened groups and its hours
      to their total. */
  lemma AddToGroupPartition(gs: seq<Group>, k: string, e: Entry)
    ensures multiset(Flatten(AddToGroup(gs, k, e))) == multiset(Flatten(gs)) + multiset{e}
    ensures SumGroups(AddToGroup(gs, k, e)) == SumGroups(gs) + e.hours
  {
    AddToGroupCases(gs, k, e);
    var i := Find(Keys(gs), k);
    if i < |gs| {
      FlattenPush(gs, i, e);
    } else {
      FlattenAppend(gs, Group(k, [e]));
      SumGroupsAppend(gs, Group(k, [e]));
      assert SumHours([e]) == e.hours by {
        assert [e][..0] == [];
      }
    }
  }

  /** The groups together hold the input, entry for entry, and their hours
      add up to the input's total. */
  lemma {:induction false} GroupByPartitions(logs: seq<Entry>, f: Field)
    ensures multiset(Flatten(GroupBy(logs, f))) == multiset(logs)
    ensures SumGroups(GroupBy(logs, f)) == SumHours(logs)
  {
    if |logs| > 0 {
      var n := |logs| - 1;
      GroupByPartitions(logs[..n], f);
      GroupByLast(logs, f);
      PartitionStep(logs, f, GroupBy(logs[..n], f), GroupBy(logs, f));
    }
  }

  lemma PartitionStep(logs: seq<Entry>, f: Field, prev: seq<Group>, gs: seq<Group>)
    requires |logs| > 0
    requires multiset(Flatten(prev)) == multiset(logs[..|logs| - 1])
    requires SumGroups(prev) == SumHours(logs[..|logs| - 1])
    requires gs == AddToGroup(prev, Key(logs[|logs| - 1], f), logs[|logs| - 1])
    ensures multiset(Flatten(gs)) == multiset(logs)
    ensures SumGroups(gs) == SumHours(logs)
  {
    AddToGroupPartition(prev, Key(logs[|logs| - 1], f), logs[|logs| - 1]);
    MultisetLast(logs);
  }

  lemma {:induction false} FirstIndexAppend(a: seq<Entry>, x: Entry, f: Field, k: string)
    requires FirstIndex(a, f, k) < |a|
    ensures FirstIndex(a + [x], f, k) == FirstIndex(a, f, k)
  {
    if Key(a[0], f) != k {
      FirstIndexAppend(a[1..], x, f, k);
      assert (a + [x])[1..] == a[1..] + [x];
    }
  }

  lemma {:induction false} FirstIndexNew(a: seq<Entry>, x: Entry, f: Field, k: string)
    requires FirstIndex(a, f, k) == |a| && Key(x, f) == k
    ensures FirstIndex(a + [x], f, k) == |a|
  {
    if |a| > 0 {
      FirstIndexNew(a[1..], x, f, k);
      assert (a + [x])[1..] == a[1..] + [x];
    }
  }

  /** One reduce step keeps the existing keys in place and either finds
      `k` among them or appends it as a new last key. */
  lemma AddToGroupKeys(gs: seq<Group>, k: string, e: Entry)
    ensures |AddToGroup(gs, k, e)| == |gs| || |AddToGroup(gs, k, e)| == |gs| + 1
    ensures forall i :: 0 <= i < |gs| ==> AddToGroup(gs, k, e)[i].key == gs[i].key
    ensures |AddToGroup(gs, k, e)| == |gs| + 1 ==>
      AddToGroup(gs, k, e)[|gs|].key == k && forall i :: 0 <= i < |gs| ==> gs[i].key != k
  {
  }

  /** Groups appear in the order their keys first occur in the input. */
  lemma {:induction false} GroupByOrder(logs: seq<Entry>, f: Field)
    ensures forall i :: 0 <= i < |GroupBy(logs, f)| ==>
      FirstIndex(logs, f, GroupBy(logs, f)[i].key) < |logs|
    ensures forall i, j :: 0 <= i < j < |GroupBy(logs, f)| ==>
      FirstIndex(logs, f, GroupBy(logs, f)[i].key) < FirstIndex(logs, f, GroupBy(logs, f)[j].key)
  {
    if |logs| > 0 {
      var n := |logs| - 1;
      GroupByOrder(logs[..n], f);
      GroupByKeys(logs[..n], f);
      GroupByLast(logs, f);
      SplitLast(logs);
      OrderStep(logs[..n], logs[n], f, GroupBy(logs[..n], f), GroupBy(logs, f));
    }
  }

  lemma OrderStep(a: seq<Entry>, x: Entry, f: Field, prev: seq<Group>, gs: seq<Group>)
    requires KeySet(prev) == Values(a, f)
    requires forall i :: 0 <= i < |prev| ==> FirstIndex(a, f, prev[i].key) < |a|
    requires forall i, j :: 0 <= i < j < |prev| ==>
      FirstIndex(a, f, prev[i].key) < FirstIndex(a, f, prev[j].key)
    requires gs == AddToGroup(prev, Key(x, f), x)
    ensures forall i :: 0 <= i < |gs| ==> FirstIndex(a + [x], f, gs[i].key) < |a| + 1
    ensures forall i, j :: 0 <= i < j < |gs| ==>
      FirstIndex(a + [x], f, gs[i].key) < FirstIndex(a + [x], f, gs[j].key)
  {
    var k := Key(x, f);
    AddToGroupKeys(prev, k, x);
    forall i | 0 <= i < |prev|
      ensures FirstIndex(a + [x], f, gs[i].key) == FirstIndex(a, f, prev[i].key) < |a|
    {
      FirstIndexAppend(a, x, f, prev[i].key);
    }
    if |gs| > |prev| {
      assert k !in KeySet(prev);
      NewKeyAbsent(a, f, k);
      FirstIndexNew(a, x, f, k);
      assert FirstIndex(a + [x], f, gs[|prev|].key) == |a|;
    }
  }
}
