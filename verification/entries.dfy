/**
 * The log entry record every component shares, and the list operations on
 * entries that more than one component uses: filtering on one field and
 * summing hours.
 */
module Entries {

  /** One practice session. A missing or empty category is stored as "".
      Hours are an exact real; the floating-point rounding of JavaScript
      numbers is not modelled. */
  datatype Entry = Entry(
    id: string,
    date: string,
    skill: string,
    category: string,
    hours: real,
    notes: string,
    timestamp: string)

  /** The category an entry is shown and counted under when it has none. */
  const DefaultCategory := "Other"

  /** The entry fields that the core filters or groups on. */
  datatype Field = Id | Date | Skill | Category | Timestamp

  /** The value of field `f`; a falsy category reads as `DefaultCategory`
      (`l.category || "Other"`). */
  function Key(e: Entry, f: Field): string {
    match f
    case Id => e.id
    case Date => e.date
    case Skill => e.skill
    case Category => if e.category == "" then DefaultCategory else e.category
    case Timestamp => e.timestamp
  }

  /** Whether `e` survives `Filter(_, f, v, keep)`. */
  predicate Passes(e: Entry, f: Field, v: string, keep: bool) {
    (Key(e, f) == v) == keep
  }

  /** `xs.filter(e => (Key(e, f) == v) == keep)`: with `keep` the entries
      whose field equals `v`, without it the entries whose field differs. */
  function Filter(xs: seq<Entry>, f: Field, v: string, keep: bool): (r: seq<Entry>)
    ensures |r| <= |xs|
  {
    if |xs| == 0 then []
    else if Passes(xs[0], f, v, keep) then [xs[0]] + Filter(xs[1..], f, v, keep)
    else Filter(xs[1..], f, v, keep)
  }

  /** `Filter` keeps each passing entry as often as it occurs in the input
      and drops every other one. */
  lemma {:induction false} FilterCounts(xs: seq<Entry>, f: Field, v: string, keep: bool)
    ensures forall e {:trigger multiset(Filter(xs, f, v, keep))[e]} ::
      multiset(Filter(xs, f, v, keep))[e] == if Passes(e, f, v, keep) then multiset(xs)[e] else 0
  {
    if |xs| > 0 {
      FilterCounts(xs[1..], f, v, keep);
      assert xs == [xs[0]] + xs[1..];
      assert multiset(xs) == multiset{xs[0]} + multiset(xs[1..]);
    }
  }

  /** `Filter` keeps exactly the passing entries, each as often as it occurs
      in the input, and drops every other one. */
  lemma FilterContents(xs: seq<Entry>, f: Field, v: string, keep: bool)
    ensures forall e {:trigger multiset(Filter(xs, f, v, keep))[e]} ::
      multiset(Filter(xs, f, v, keep))[e] == if Passes(e, f, v, keep) then multiset(xs)[e] else 0
    ensures forall e :: e in Filter(xs, f, v, keep) <==> e in xs && Passes(e, f, v, keep)
  {
    FilterCounts(xs, f, v, keep);
    var r := Filter(xs, f, v, keep);
    forall e
      ensures e in r <==> e in xs && Passes(e, f, v, keep)
    {
      assert e in r <==> e in multiset(r);
      assert e in xs <==> e in multiset(xs);
    }
  }

  /** Filtering works piecewise, so it keeps the input's relative order. */
  lemma {:induction false} FilterAppend(a: seq<Entry>, b: seq<Entry>, f: Field, v: string, keep: bool)
    ensures Filter(a + b, f, v, keep) == Filter(a, f, v, keep) + Filter(b, f, v, keep)
  {
    if |a| > 0 {
      FilterAppend(a[1..], b, f, v, keep);
      assert (a + b)[0] == a[0];
      assert (a + b)[1..] == a[1..] + b;
      if Passes(a[0], f, v, keep) {
        assert [a[0]] + (Filter(a[1..], f, v, keep) + Filter(b, f, v, keep))
            == ([a[0]] + Filter(a[1..], f, v, keep)) + Filter(b, f, v, keep);
      }
    } else {
      assert a + b == b;
    }
  }

  /** Filtering a sequence is filtering all but its last entry, then
      keeping or dropping that one. */
  lemma FilterLast(xs: seq<Entry>, f: Field, v: string, keep: bool)
    requires |xs| > 0
    ensures Filter(xs, f, v, keep)
         == Filter(xs[..|xs| - 1], f, v, keep)
            + (if Passes(xs[|xs| - 1], f, v, keep) then [xs[|xs| - 1]] else [])
  {
    var n := |xs| - 1;
    var a, y := xs[..n], [xs[n]];
    assert xs == a + y;
    FilterAppend(a, y, f, v, keep);
    assert Filter(y, f, v, keep) == if Passes(xs[n], f, v, keep) then y else [] by {
      assert y[1..] == [];
    }
  }

  /** Filtering leaves the sequence alone exactly when every entry passes. */
  lemma {:induction false} FilterAllPass(xs: seq<Entry>, f: Field, v: string, keep: bool)
    requires forall e :: e in xs ==> Passes(e, f, v, keep)
    ensures Filter(xs, f, v, keep) == xs
  {
    if |xs| > 0 {
      FilterAllPass(xs[1..], f, v, keep);
      assert xs == [xs[0]] + xs[1..];
    }
  }

  /** Filtering drops everything when no entry passes. */
  lemma {:induction false} FilterNonePass(xs: seq<Entry>, f: Field, v: string, keep: bool)
    requires forall e :: e in xs ==> !Passes(e, f, v, keep)
    ensures Filter(xs, f, v, keep) == []
  {
    if |xs| > 0 {
      FilterNonePass(xs[1..], f, v, keep);
      assert xs[0] in xs;
    }
  }

  /** Filtering twice on the same condition is filtering once. */
  lemma FilterIdempotent(xs: seq<Entry>, f: Field, v: string, keep: bool)
    ensures Filter(Filter(xs, f, v, keep), f, v, keep) == Filter(xs, f, v, keep)
  {
    FilterContents(xs, f, v, keep);
    FilterAllPass(Filter(xs, f, v, keep), f, v, keep);
  }

  /** A non-empty sequence is its prefix followed by its last entry. */
  lemma SplitLast(xs: seq<Entry>)
    requires |xs| > 0
    ensures xs == xs[..|xs| - 1] + [xs[|xs| - 1]]
  {
  }

  /** Splitting off the last entry splits the multiset the same way. */
  lemma MultisetLast(xs: seq<Entry>)
    requires |xs| > 0
    ensures multiset(xs) == multiset(xs[..|xs| - 1]) + multiset{xs[|xs| - 1]}
  {
    assert xs == xs[..|xs| - 1] + [xs[|xs| - 1]];
  }

  /** The `reduce((s, l) => s + l.hours, 0)` total, folded left to right. */
  function SumHours(xs: seq<Entry>): real {
    if |xs| == 0 then 0.0 else SumHours(xs[..|xs| - 1]) + xs[|xs| - 1].hours
  }

  /** The total of a concatenation is the sum of the totals. */
  lemma {:induction false} SumHoursAppend(a: seq<Entry>, b: seq<Entry>)
    ensures SumHours(a + b) == SumHours(a) + SumHours(b)
  {
    if |b| > 0 {
      SumHoursAppend(a, b[..|b| - 1]);
      assert (a + b)[..|a + b| - 1] == a + b[..|b| - 1];
    } else {
      assert a + b == a;
    }
  }
}
