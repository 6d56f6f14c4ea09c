/**
 * The aggregation in `src/Summary.jsx`: total hours, hours per skill and per
 * category (objects whose keys keep insertion order, modelled as bucket
 * sequences), the top skill, the combined notes, the notes snippet, and the
 * categories listed by decreasing hours.
 */
module Summary {
  import opened Wrappers
  import opened Entries
  import opened Grouping
  import opened Sorting
  import opened Text
  import opened Sentences

  /** The snippet keeps at most this many characters. */
  const NotesLimit := 300

  /** The snippet keeps at most this many sentence pieces. */
  const SentencesKept := 2

  // ---------------------------------------------------------------------
  // summarizeNotes

  /** `sentences.slice(0, 2).join(" ")`. */
  function FirstSentences(notes: string): string {
    var ps := Split(notes);
    Join(ps[..if |ps| < SentencesKept then |ps| else SentencesKept], " ")
  }

  /** `summarizeNotes`: empty notes give the empty snippet; otherwise the
      first two sentence pieces joined by a space, cut to 300 characters. */
  function SummarizeNotes(notes: string): (r: string)
    ensures |r| <= NotesLimit
    ensures notes == "" ==> r == ""
    ensures notes != "" ==> r <= FirstSentences(notes)
    ensures notes != "" && |FirstSentences(notes)| <= NotesLimit ==> r == FirstSentences(notes)
    ensures notes != "" && |FirstSentences(notes)| > NotesLimit ==> |r| == NotesLimit
  {
    if notes == "" then ""
    else
      var t := FirstSentences(notes);
      if |t| <= NotesLimit then t else t[..NotesLimit]
  }

  /** Notes with no sentence break come back whole, cut to 300 characters. */
  lemma SummaryOfOneSentence(notes: string)
    requires Unbroken(notes)
    ensures SummarizeNotes(notes) == notes[..if |notes| < NotesLimit then |notes| else NotesLimit]
  {
    assert NextBreak(notes, 0) == |notes|;
    assert Split(notes) == [notes];
  }

  /** Two sentences `a` and `b` separated by the white-space run `w` come out
      as `a + " " + b`, cut to 300 characters: the run collapses to the one
      space that `join` puts back. */
  lemma SummaryOfTwoSentences(a: string, w: string, b: string)
    requires EndsSentence(a) && Unbroken(a)
    requires Run(w)
    requires StartsClean(b) && Unbroken(b)
    ensures Split(a + w + b) == [a, b]
    ensures SummarizeNotes(a + w + b) == (a + " " + b)[..if |a + " " + b| < NotesLimit then |a + " " + b| else NotesLimit]
  {
    var s := a + w + b;
    TwoSentencesSplit(a, w, b);
    assert Split(s)[..SentencesKept] == [a, b];
    assert FirstSentences(s) == Join([a, b], " ");
    assert Join([a, b], " ") == a + " " + b by {
      assert [a, b][..1] == [a];
    }
  }

  lemma TwoSentencesSplit(a: string, w: string, b: string)
    requires EndsSentence(a) && Unbroken(a)
    requires Run(w)
    requires StartsClean(b) && Unbroken(b)
    ensures Split(a + w + b) == [a, b]
  {
    var s := a + w + b;
    var m := |a| + |w|;
    FirstBreakAfter(a, w, b);
    RunBetween(a, w, b);
    NoBreakIn(a, w, b);
    PiecesStep(s, 0);
    PiecesLast(s, m);
    assert s[..|a|] == a;
    assert s[m..] == b;
  }

  /** The first match in `a + w + b` is right after `a`. */
  lemma FirstBreakAfter(a: string, w: string, b: string)
    requires EndsSentence(a) && Unbroken(a) && Run(w)
    ensures NextBreak(a + w + b, 0) == |a|
  {
    var s := a + w + b;
    forall k | 0 <= k < |a|
      ensures !BreakAt(s, k)
    {
      if 0 < k {
        assert !BreakAt(a, k);
        assert s[k - 1] == a[k - 1] && s[k] == a[k];
      }
    }
    assert s[|a|] == w[0];
    NextBreakOver(s, 0, |a|);
  }

  /** The run after `a` covers exactly `w`. */
  lemma RunBetween(a: string, w: string, b: string)
    requires Run(w) && StartsClean(b)
    ensures RunEnd(a + w + b, |a|) == |a| + |w|
  {
    var s := a + w + b;
    forall k | |a| <= k < |a| + |w| ensures IsSpace(s[k]) {
      assert s[k] == w[k - |a|];
    }
    assert |a| + |w| < |s| ==> s[|a| + |w|] == b[0];
    RunEndOver(s, |a|, |a| + |w|);
  }

  /** There is no match from the start of `b` on. */
  lemma NoBreakIn(a: string, w: string, b: string)
    requires Run(w) && StartsClean(b) && Unbroken(b)
    ensures NextBreak(a + w + b, |a| + |w|) == |a + w + b|
  {
    var s := a + w + b;
    var m := |a| + |w|;
    forall k | m <= k < |s|
      ensures !BreakAt(s, k)
    {
      if k == m {
        assert s[k] == b[0];
      } else {
        assert s[k - 1] == b[k - 1 - m] && s[k] == b[k - m];
        assert !BreakAt(b, k - m);
      }
    }
    NextBreakOver(s, m, |s|);
  }

  lemma {:induction false} NextBreakOver(s: string, p: nat, q: nat)
    requires p <= q <= |s|
    requires forall k :: p <= k < q ==> !BreakAt(s, k)
    requires q == |s| || BreakAt(s, q)
    ensures NextBreak(s, p) == q
    decreases q - p
  {
    if p < q {
      NextBreakOver(s, p + 1, q);
    }
  }

  lemma {:induction false} RunEndOver(s: string, q: nat, e: nat)
    requires q <= e <= |s|
    requires forall k :: q <= k < e ==> IsSpace(s[k])
    requires e == |s| || !IsSpace(s[e])
    ensures RunEnd(s, q) == e
    decreases e - q
  {
    if q < e {
      RunEndOver(s, q + 1, e);
    }
  }

  // ---------------------------------------------------------------------
  // Per-key totals

  /** One key of an hours-per-key object and its accumulated total. */
  datatype Bucket = Bucket(key: string, total: real)

  function Names(t: seq<Bucket>): (ks: seq<string>)
    ensures |ks| == |t| && forall i :: 0 <= i < |t| ==> ks[i] == t[i].key
  {
    if |t| == 0 then [] else [t[0].key] + Names(t[1..])
  }

  /** `counts[k] = (counts[k] || 0) + h` on an object that only holds its own keys. */
  function AddTo(t: seq<Bucket>, k: string, h: real): seq<Bucket> {
    var i := Find(Names(t), k);
    if i < |t| then t[i := Bucket(k, t[i].total + h)] else t + [Bucket(k, h)]
  }

  /** The `forEach` accumulation of hours per field value. */
  function Tally(logs: seq<Entry>, f: Field): seq<Bucket> {
    if |logs| == 0 then []
    else
      var n := |logs| - 1;
      AddTo(Tally(logs[..n], f), Key(logs[n], f), logs[n].hours)
  }

  /** Sum of the bucket totals. */
  function SumTotals(t: seq<Bucket>): real {
    if |t| == 0 then 0.0 else t[0].total + SumTotals(t[1..])
  }

  /** The totals are the groups' hours: bucket `i` is group `i` of
      `GroupBy`, with its entries' hours added up. */
  lemma {:induction false} TallyIsGroupTotals(logs: seq<Entry>, f: Field)
    ensures |Tally(logs, f)| == |GroupBy(logs, f)|
    ensures forall i :: 0 <= i < |Tally(logs, f)| ==>
      Tally(logs, f)[i].key == GroupBy(logs, f)[i].key
      && Tally(logs, f)[i].total == SumHours(GroupBy(logs, f)[i].entries)
  {
    if |logs| > 0 {
      var n := |logs| - 1;
      var x := logs[n];
      var k := Key(x, f);
      TallyIsGroupTotals(logs[..n], f);
      var t := Tally(logs[..n], f);
      var gs := GroupBy(logs[..n], f);
      assert Names(t) == Keys(gs);
      var i := Find(Keys(gs), k);
      assert Tally(logs, f) == AddTo(t, k, x.hours);
      assert GroupBy(logs, f) == AddToGroup(gs, k, x);
      if i < |gs| {
        assert (gs[i].entries + [x])[..|gs[i].entries|] == gs[i].entries;
      } else {
        assert [x][..0] == [];
      }
    }
  }

  lemma {:induction false} SumTotalsOfGroups(t: seq<Bucket>, gs: seq<Group>)
    requires |t| == |gs|
    requires forall i :: 0 <= i < |t| ==> t[i].total == SumHours(gs[i].entries)
    ensures SumTotals(t) == SumGroups(gs)
  {
    if |t| > 0 {
      SumTotalsOfGroups(t[1..], gs[1..]);
    }
  }

  /** What the per-key totals mean: one bucket per distinct value of the
      field, in order of first occurrence, each holding the hours of exactly
      the entries with that value, all of them adding up to the total hours. */
  lemma TallySpec(logs: seq<Entry>, f: Field)
    ensures forall i, j :: 0 <= i < j < |Tally(logs, f)| ==> Tally(logs, f)[i].key != Tally(logs, f)[j].key
    ensures forall k :: k in Names(Tally(logs, f)) <==> exists e :: e in logs && Key(e, f) == k
    ensures forall i :: 0 <= i < |Tally(logs, f)| ==>
      Tally(logs, f)[i].total == SumHours(Filter(logs, f, Tally(logs, f)[i].key, true))
    ensures forall i, j :: 0 <= i < j < |Tally(logs, f)| ==>
      FirstIndex(logs, f, Tally(logs, f)[i].key) < FirstIndex(logs, f, Tally(logs, f)[j].key)
    ensures SumTotals(Tally(logs, f)) == SumHours(logs)
  {
    var t := Tally(logs, f);
    var gs := GroupBy(logs, f);
    TallyIsGroupTotals(logs, f);
    GroupByKeys(logs, f);
    GroupByEntries(logs, f);
    GroupByOrder(logs, f);
    GroupByPartitions(logs, f);
    SumTotalsOfGroups(t, gs);
    forall k
      ensures k in Names(t) <==> exists e :: e in logs && Key(e, f) == k
    {
      assert k in Names(t) <==> k in KeySet(gs);
    }
  }

  // ---------------------------------------------------------------------
  // Top skill

  /** Bucket `i` is the first one holding the largest positive total. */
  ghost predicate FirstMax(t: seq<Bucket>, i: int) {
    && 0 <= i < |t|
    && t[i].total > 0.0
    && (forall j :: 0 <= j < |t| ==> t[j].total <= t[i].total)
    && (forall j :: 0 <= j < i ==> t[j].total < t[i].total)
  }

  /** The scan over `Object.entries(skillCounts)` that keeps the first
      strictly larger total, starting from 0: null when no total is positive,
      otherwise the key of the first bucket with the largest total. */
  method TopSkill(counts: seq<Bucket>) returns (top: Option<string>)
    ensures top.None? <==> forall i :: 0 <= i < |counts| ==> counts[i].total <= 0.0
    ensures top.Some? ==> exists i :: FirstMax(counts, i) && counts[i].key == top.value
  {
    top := None;
    var max := 0.0;
    ghost var at := 0;
    for i := 0 to |counts|
      invariant top.None? ==> max == 0.0 && forall j :: 0 <= j < i ==> counts[j].total <= 0.0
      invariant top.Some? ==> 0 <= at < i && counts[at].key == top.value && counts[at].total == max
      invariant top.Some? ==> max > 0.0 && forall j :: 0 <= j < i ==> counts[j].total <= max
      invariant top.Some? ==> forall j :: 0 <= j < at ==> counts[j].total < max
    {
      if counts[i].total > max {
        max := counts[i].total;
        top := Some(counts[i].key);
        at := i;
      }
    }
  }

  // ---------------------------------------------------------------------
  // Combined notes

  /** The non-empty notes, in log order. */
  function NonEmptyNotes(logs: seq<Entry>): seq<string> {
    if |logs| == 0 then []
    else
      var n := |logs| - 1;
      NonEmptyNotes(logs[..n]) + (if logs[n].notes != "" then [logs[n].notes] else [])
  }

  lemma {:induction false} NonEmptyNotesNonEmpty(logs: seq<Entry>)
    ensures forall i :: 0 <= i < |NonEmptyNotes(logs)| ==> NonEmptyNotes(logs)[i] != ""
  {
    if |logs| > 0 {
      NonEmptyNotesNonEmpty(logs[..|logs| - 1]);
    }
  }

  // ---------------------------------------------------------------------
  // The whole aggregation

  /** What `useMemo` computes from the day's logs. */
  datatype Stats = Stats(
    totalHours: real,
    skillCounts: seq<Bucket>,
    categoryCounts: seq<Bucket>,
    topSkill: Option<string>,
    combinedNotes: string)

  /** The aggregation, one pass over the logs as in the source: the total is
      the sum of all hours and also of each breakdown; each breakdown has one
      bucket per distinct skill (category, with "Other" for a missing one)
      holding exactly that key's hours, in first-occurrence order; the top
      skill is null exactly when no skill has positive hours and otherwise
      the earliest-inserted skill with the largest total; the combined notes
      are the non-empty notes joined by single spaces. */
  method Aggregate(logs: seq<Entry>) returns (st: Stats)
    ensures st.totalHours == SumHours(logs)
    ensures SumTotals(st.skillCounts) == st.totalHours
    ensures SumTotals(st.categoryCounts) == st.totalHours
    ensures forall i :: 0 <= i < |st.skillCounts| ==>
      st.skillCounts[i].total == SumHours(Filter(logs, Skill, st.skillCounts[i].key, true))
    ensures forall i :: 0 <= i < |st.categoryCounts| ==>
      st.categoryCounts[i].total == SumHours(Filter(logs, Category, st.categoryCounts[i].key, true))
    ensures forall k :: k in Names(st.skillCounts) <==> exists e :: e in logs && Key(e, Skill) == k
    ensures forall k :: k in Names(st.categoryCounts) <==> exists e :: e in logs && Key(e, Category) == k
    ensures forall i, j :: 0 <= i < j < |st.skillCounts| ==>
      st.skillCounts[i].key != st.skillCounts[j].key
      && FirstIndex(logs, Skill, st.skillCounts[i].key) < FirstIndex(logs, Skill, st.skillCounts[j].key)
    ensures forall i, j :: 0 <= i < j < |st.categoryCounts| ==>
      st.categoryCounts[i].key != st.categoryCounts[j].key
      && FirstIndex(logs, Category, st.categoryCounts[i].key) < FirstIndex(logs, Category, st.categoryCounts[j].key)
    ensures st.topSkill.None? <==> forall i :: 0 <= i < |st.skillCounts| ==> st.skillCounts[i].total <= 0.0
    ensures st.topSkill.Some? ==> exists i :: FirstMax(st.skillCounts, i) && st.skillCounts[i].key == st.topSkill.value
    ensures st.combinedNotes == Join(NonEmptyNotes(logs), " ")
  {
    var total := SumHours(logs);
    var skills, categories, combined := Accumulate(logs);
    TallySpec(logs, Skill);
    TallySpec(logs, Category);
    var top := TopSkill(skills);
    st := Stats(total, skills, categories, top, combined);
  }

  lemma TallyStep(logs: seq<Entry>, i: nat, f: Field)
    requires i < |logs|
    ensures Tally(logs[..i + 1], f) == AddTo(Tally(logs[..i], f), Key(logs[i], f), logs[i].hours)
  {
    assert logs[..i + 1][..i] == logs[..i];
  }

  lemma NotesPrefix(logs: seq<Entry>, i: nat)
    requires i < |logs|
    ensures NonEmptyNotes(logs[..i + 1]) == NonEmptyNotes(logs[..i]) + (if logs[i].notes != "" then [logs[i].notes] else [])
  {
    assert logs[..i + 1][..i] == logs[..i];
  }

  /** One step of `combined += (combined ? " " : "") + note` for a non-empty
      note extends the join by that note. */
  lemma JoinStep(ns: seq<string>, note: string)
    requires note != ""
    ensures Join(ns + [note], " ") == Join(ns, " ") + (if |ns| > 0 then " " else "") + note
    ensures Join(ns + [note], " ") != ""
  {
    assert (ns + [note])[..|ns|] == ns;
  }

  /** The `forEach` pass: it builds exactly the two per-key tallies, and the
      combined notes it builds with `(combined ? " " : "") + notes` are the
      non-empty notes joined by single spaces. */
  method Accumulate(logs: seq<Entry>) returns (skills: seq<Bucket>, categories: seq<Bucket>, combined: string)
    ensures skills == Tally(logs, Skill)
    ensures categories == Tally(logs, Category)
    ensures combined == Join(NonEmptyNotes(logs), " ")
  {
    skills := [];
    categories := [];
    combined := "";
    ghost var seen: seq<string> := [];
    for i := 0 to |logs|
      invariant skills == Tally(logs[..i], Skill)
      invariant categories == Tally(logs[..i], Category)
      invariant seen == NonEmptyNotes(logs[..i])
      invariant combined == Join(seen, " ")
      invariant combined == "" <==> |seen| == 0
    {
      var l := logs[i];
      TallyStep(logs, i, Skill);
      TallyStep(logs, i, Category);
      skills := AddTo(skills, Key(l, Skill), l.hours);
      categories := AddTo(categories, Key(l, Category), l.hours);
      NotesPrefix(logs, i);
      if l.notes != "" {
        JoinStep(seen, l.notes);
        combined := combined + (if combined != "" then " " else "") + l.notes;
        seen := seen + [l.notes];
      }
    }
    assert logs[..|logs|] == logs;
  }

  // ---------------------------------------------------------------------
  // The "By Category" list

  /** `(a, b) => b[1] - a[1] < 0`: more hours sorts first. */
  predicate MoreHours(a: Bucket, b: Bucket) {
    a.total > b.total
  }

  /** `Object.entries(categoryCounts).sort((a, b) => b[1] - a[1])`. */
  function ByHours(counts: seq<Bucket>): seq<Bucket> {
    SortBy(counts, MoreHours)
  }

  /** The list holds the same buckets, by non-increasing hours, and buckets
      with equal hours stay in insertion order. */
  lemma ByHoursSpec(counts: seq<Bucket>)
    ensures multiset(ByHours(counts)) == multiset(counts)
    ensures forall i, j :: 0 <= i < j < |ByHours(counts)| ==> ByHours(counts)[i].total >= ByHours(counts)[j].total
    ensures forall v :: TiedWith(ByHours(counts), v, MoreHours) == TiedWith(counts, v, MoreHours)
  {
    assert StrictWeakOrder(MoreHours);
    SortBySorted(counts, MoreHours);
    forall v
      ensures TiedWith(ByHours(counts), v, MoreHours) == TiedWith(counts, v, MoreHours)
    {
      SortByStable(counts, v, MoreHours);
    }
  }

  // ---------------------------------------------------------------------
  // `skillCounts[l.skill] || 0` as written. `skillCounts` is a `{}` literal,
  // so the lookup also finds the members every object inherits from
  // `Object.prototype`. For a skill named, say, "toString" the first lookup
  // yields a function, `function + number` concatenates text, and from then
  // on the count is a string; `hrs > max` compares NaN and is false, so that
  // skill can never be the top skill. For "__proto__" the assignment of a
  // string is ignored and the key never appears at all.

  /** The names an empty object literal inherits. */
  const InheritedNames: set<string> := {
    "constructor", "hasOwnProperty", "isPrototypeOf", "propertyIsEnumerable",
    "toLocaleString", "toString", "valueOf", "__defineGetter__",
    "__defineSetter__", "__lookupGetter__", "__lookupSetter__", "__proto__"
  }

  /** A count as the written code holds it: a number, or the text that
      concatenating an inherited member with a number produces. */
  datatype Count = Hours(hours: real) | Concatenated

  datatype Cell = Cell(key: string, count: Count)

  function CellNames(t: seq<Cell>): (ks: seq<string>)
    ensures |ks| == |t| && forall i :: 0 <= i < |t| ==> ks[i] == t[i].key
  {
    if |t| == 0 then [] else [t[0].key] + CellNames(t[1..])
  }

  function AddToAsWritten(t: seq<Cell>, k: string, h: real): seq<Cell> {
    var i := Find(CellNames(t), k);
    if i < |t| then
      t[i := Cell(k, match t[i].count
                      case Hours(x) => Hours(x + h)
                      case Concatenated => Concatenated)]
    else if k == "__proto__" then t
    else if k in InheritedNames then t + [Cell(k, Concatenated)]
    else t + [Cell(k, Hours(h))]
  }

  function SkillCountsAsWritten(logs: seq<Entry>): seq<Cell> {
    if |logs| == 0 then []
    else
      var n := |logs| - 1;
      AddToAsWritten(SkillCountsAsWritten(logs[..n]), logs[n].skill, logs[n].hours)
  }

  /** The top-skill scan as written, from `max = 0`: a concatenated count
      never compares greater. */
  function ScanAsWritten(t: seq<Cell>, top: Option<string>, max: real): Option<string> {
    if |t| == 0 then top
    else match t[0].count
      case Hours(x) =>
        if x > max then ScanAsWritten(t[1..], Some(t[0].key), x) else ScanAsWritten(t[1..], top, max)
      case Concatenated => ScanAsWritten(t[1..], top, max)
  }

  function TopSkillAsWritten(logs: seq<Entry>): Option<string> {
    ScanAsWritten(SkillCountsAsWritten(logs), None, 0.0)
  }

  lemma {:induction false} InheritedCountsConcatenate(logs: seq<Entry>)
    ensures forall i :: 0 <= i < |SkillCountsAsWritten(logs)| ==>
      SkillCountsAsWritten(logs)[i].key in InheritedNames ==> SkillCountsAsWritten(logs)[i].count == Concatenated
  {
    if |logs| > 0 {
      InheritedCountsConcatenate(logs[..|logs| - 1]);
    }
  }

  lemma {:induction false} ScanSkipsConcatenated(t: seq<Cell>, top: Option<string>, max: real)
    requires top.None? || top.value !in InheritedNames
    requires forall i :: 0 <= i < |t| ==> t[i].key in InheritedNames ==> t[i].count == Concatenated
    ensures ScanAsWritten(t, top, max).None? || ScanAsWritten(t, top, max).value !in InheritedNames
  {
    if |t| > 0 {
      match t[0].count
      case Hours(x) =>
        ScanSkipsConcatenated(t[1..], if x > max then Some(t[0].key) else top, if x > max then x else max);
      case Concatenated =>
        ScanSkipsConcatenated(t[1..], top, max);
    }
  }

  /** As written, a skill whose name an object inherits is never reported
      as the top skill, whatever its hours. */
  lemma InheritedNameNeverTop(logs: seq<Entry>)
    ensures TopSkillAsWritten(logs).None? || TopSkillAsWritten(logs).value !in InheritedNames
  {
    InheritedCountsConcatenate(logs);
    ScanSkipsConcatenated(SkillCountsAsWritten(logs), None, 0.0);
  }

  /** The discrepancy on one entry: two hours of "toString" give no top
      skill as written, while the corrected tally has a positive bucket for
      it, so `Aggregate` reports it. */
  lemma ToStringSkillCounterexample()
    ensures var logs := [Entry("1", "2024-01-05", "toString", "Programming", 2.0, "", "2024-01-05T09:00:00.000Z")];
      && TopSkillAsWritten(logs) == None
      && Tally(logs, Skill) == [Bucket("toString", 2.0)]
  {
    var logs := [Entry("1", "2024-01-05", "toString", "Programming", 2.0, "", "2024-01-05T09:00:00.000Z")];
    assert logs[..0] == [];
    assert SkillCountsAsWritten(logs) == [Cell("toString", Concatenated)];
  }
}
