/** The history view of `src/components/History.js`: the `reduce` that groups records by date
    label, and what the view shows. Groups are emitted in the order their label is first met
    scanning the history front to back (JavaScript objects enumerate non-integer-like string
    keys in insertion order), and each group keeps its records in history order. */
module History {
  import opened Wrappers
  import opened Seqs
  import opened Model

  /** `item.deletedAt || item.createdAt`: the removal label when present and non-empty, else
      the creation label. */
  function DateKey(r: Record): (k: string)
    ensures r.deletedAt.Some? && r.deletedAt.value != "" ==> k == r.deletedAt.value
    ensures r.deletedAt.None? || r.deletedAt.value == "" ==> k == r.createdAt
  {
    match r.deletedAt
    case Some(d) => if d != "" then d else r.createdAt
    case None => r.createdAt
  }

  /** A task archived under a non-empty label is grouped under that label, whatever its
      creation label. */
  lemma {:induction false} ArchivedGroupsByRemovalDate(t: Todo, deletedAt: string)
    requires deletedAt != ""
    ensures DateKey(Archive(t, deletedAt)) == deletedAt
  {
  }

  /** One entry of the accumulator object: a date label and its records. */
  datatype DateGroup = DateGroup(date: string, items: seq<Record>)

  /** The `acc[date]` lookup: position of the group for `d`, or `|gs|` when there is none. */
  function IndexOfDate(gs: seq<DateGroup>, d: string): (i: nat)
    ensures i <= |gs|
    ensures i < |gs| ==> gs[i].date == d
    ensures forall j :: 0 <= j < i ==> gs[j].date != d
  {
    if gs == [] then 0
    else if gs[0].date == d then 0
    else 1 + IndexOfDate(gs[1..], d)
  }

  /** The reducer: open a group for the record's label if there is none yet, then push the
      record onto that group. */
  function Bucket(gs: seq<DateGroup>, r: Record): (gs': seq<DateGroup>)
    ensures |gs| <= |gs'| <= |gs| + 1
    ensures forall j :: 0 <= j < |gs| ==> gs'[j].date == gs[j].date
    ensures |gs'| == |gs| + 1 ==> gs'[|gs|] == DateGroup(DateKey(r), [r])
  {
    var k := DateKey(r);
    var i := IndexOfDate(gs, k);
    if i < |gs| then gs[i := DateGroup(k, gs[i].items + [r])]
    else gs + [DateGroup(k, [r])]
  }

  /** The reducer pushes the record onto the first group carrying its label and leaves every
      other group alone; it opens a group exactly when no group carries the label. */
  lemma {:induction false} BucketSpec(gs: seq<DateGroup>, r: Record)
    ensures var gs' := Bucket(gs, r);
      && (forall j :: 0 <= j < |gs| ==>
            gs'[j].items == if gs[j].date == DateKey(r) && forall m :: 0 <= m < j ==> gs[m].date != DateKey(r)
                            then gs[j].items + [r] else gs[j].items)
      && (|gs'| == |gs| + 1 <==> forall j :: 0 <= j < |gs| ==> gs[j].date != DateKey(r))
  {
  }

  /** `history.reduce(reducer, {})`, followed by `Object.entries`. */
  function GroupByDate(h: seq<Record>): (gs: seq<DateGroup>)
    ensures |gs| <= |h|
    ensures gs == [] <==> h == []
    decreases |h|
  {
    if h == [] then [] else Bucket(GroupByDate(h[..|h| - 1]), h[|h| - 1])
  }

  // ------------------------------------------------- reference definitions

  /** The records of `h` whose label is `d`, in history order. */
  function Select(h: seq<Record>, d: string): seq<Record>
    decreases |h|
  {
    if h == [] then []
    else Select(h[..|h| - 1], d) + if DateKey(h[|h| - 1]) == d then [h[|h| - 1]] else []
  }

  /** A record is selected exactly when it is in the history and carries the label. */
  lemma {:induction false} SelectMembers(h: seq<Record>, d: string)
    ensures forall x :: x in Select(h, d) <==> x in h && DateKey(x) == d
    decreases |h|
  {
    if h != [] {
      SelectMembers(h[..|h| - 1], d);
      assert h == h[..|h| - 1] + [h[|h| - 1]];
    }
  }

  /** The filter predicate "carries label `d`". */
  function HasDate(d: string): Record -> bool
  {
    (r: Record) => DateKey(r) == d
  }

  /** The reference selection agrees with filtering the history front to back. */
  lemma {:induction false} SelectIsFilter(h: seq<Record>, d: string)
    ensures Select(h, d) == Filter(h, HasDate(d))
    decreases |h|
  {
    if h != [] {
      var h0, r := h[..|h| - 1], h[|h| - 1];
      SelectIsFilter(h0, d);
      assert h == h0 + [r];
      FilterAppend(h0, [r], HasDate(d));
      assert [r][1..] == [];
    }
  }

  /** Position of the first record of `h` labelled `d`, or `|h|` when there is none. */
  function FirstSeen(h: seq<Record>, d: string): (k: nat)
    ensures k <= |h|
    ensures k < |h| ==> DateKey(h[k]) == d
    ensures forall j :: 0 <= j < k ==> DateKey(h[j]) != d
    decreases |h|
  {
    if h == [] then 0
    else
      var p := FirstSeen(h[..|h| - 1], d);
      if p < |h| - 1 then p
      else if DateKey(h[|h| - 1]) == d then |h| - 1
      else |h|
  }

  function Dates(gs: seq<DateGroup>): (ds: seq<string>)
    ensures |ds| == |gs|
    ensures forall i :: 0 <= i < |gs| ==> ds[i] == gs[i].date
  {
    seq(|gs|, i requires 0 <= i < |gs| => gs[i].date)
  }

  /** `gs` is the grouping of `h` by date label: each group holds exactly the records with its
      label in history order, every group's label occurs in `h`, groups are ordered by where
      their label first occurs (so labels are distinct), and every label of `h` has a group. */
  ghost predicate GroupedBy(h: seq<Record>, gs: seq<DateGroup>)
  {
    GroupsSelect(h, gs) && GroupsOrdered(h, gs) && GroupsCover(h, gs)
  }

  /** Each group holds exactly the records with its label, in history order. */
  ghost predicate GroupsSelect(h: seq<Record>, gs: seq<DateGroup>)
  {
    forall i :: 0 <= i < |gs| ==> gs[i].items == Select(h, gs[i].date)
  }

  /** Every group's label occurs in `h`, and groups come in order of first occurrence. */
  ghost predicate GroupsOrdered(h: seq<Record>, gs: seq<DateGroup>)
  {
    && (forall i :: 0 <= i < |gs| ==> FirstSeen(h, gs[i].date) < |h|)
    && (forall i, j :: 0 <= i < j < |gs| ==> FirstSeen(h, gs[i].date) < FirstSeen(h, gs[j].date))
  }

  /** Every label of `h` has a group. */
  ghost predicate GroupsCover(h: seq<Record>, gs: seq<DateGroup>)
  {
    forall k :: 0 <= k < |h| ==> DateKey(h[k]) in Dates(gs)
  }

  // ------------------------------------------------------------ the proofs

  lemma {:induction false} SelectSnoc(h: seq<Record>, r: Record, d: string)
    ensures Select(h + [r], d) == Select(h, d) + if DateKey(r) == d then [r] else []
  {
    assert (h + [r])[..|h|] == h;
  }

  lemma {:induction false} FirstSeenSnoc(h: seq<Record>, r: Record, d: string)
    ensures FirstSeen(h + [r], d)
         == if FirstSeen(h, d) < |h| then FirstSeen(h, d) else if DateKey(r) == d then |h| else |h| + 1
  {
    assert (h + [r])[..|h|] == h;
  }

  /** A label with no group does not occur in the history yet. */
  lemma {:induction false} UnseenDate(h: seq<Record>, gs: seq<DateGroup>, k: string)
    requires GroupedBy(h, gs)
    requires k !in Dates(gs)
    ensures FirstSeen(h, k) == |h|
    ensures Select(h, k) == []
  {
    if FirstSeen(h, k) < |h| {
      assert false;
    }
    if Select(h, k) != [] {
      SelectMembers(h, k);
      assert Select(h, k)[0] in Select(h, k);
      assert false;
    }
  }

  /** The reducer step for a record whose label already has a group. */
  lemma {:induction false} BucketIntoExisting(h: seq<Record>, gs: seq<DateGroup>, r: Record)
    requires GroupedBy(h, gs)
    requires IndexOfDate(gs, DateKey(r)) < |gs|
    ensures GroupedBy(h + [r], Bucket(gs, r))
  {
    var k := DateKey(r);
    var i := IndexOfDate(gs, k);
    assert Bucket(gs, r) == gs[i := DateGroup(k, gs[i].items + [r])];
    ExistingSelect(h, gs, r, i);
    ExistingOrdered(h, gs, r, i);
    ExistingCover(h, gs, r, i);
  }

  lemma {:induction false} ExistingCover(h: seq<Record>, gs: seq<DateGroup>, r: Record, i: int)
    requires GroupsCover(h, gs)
    requires 0 <= i < |gs| && gs[i].date == DateKey(r)
    ensures GroupsCover(h + [r], gs[i := DateGroup(DateKey(r), gs[i].items + [r])])
  {
    var gs' := gs[i := DateGroup(DateKey(r), gs[i].items + [r])];
    var h' := h + [r];
    assert Dates(gs') == Dates(gs);
    forall m | 0 <= m < |h'| ensures DateKey(h'[m]) in Dates(gs') {
      if m < |h| {
        assert h'[m] == h[m];
      } else {
        assert Dates(gs')[i] == DateKey(r);
      }
    }
  }

  lemma {:induction false} ExistingSelect(h: seq<Record>, gs: seq<DateGroup>, r: Record, i: int)
    requires GroupsSelect(h, gs) && GroupsOrdered(h, gs)
    requires 0 <= i < |gs| && gs[i].date == DateKey(r)
    ensures GroupsSelect(h + [r], gs[i := DateGroup(DateKey(r), gs[i].items + [r])])
  {
    var gs' := gs[i := DateGroup(DateKey(r), gs[i].items + [r])];
    forall j | 0 <= j < |gs'| ensures gs'[j].items == Select(h + [r], gs'[j].date) {
      SelectSnoc(h, r, gs[j].date);
      if j != i {
        assert FirstSeen(h, gs[j].date) != FirstSeen(h, gs[i].date);
      }
    }
  }

  lemma {:induction false} ExistingOrdered(h: seq<Record>, gs: seq<DateGroup>, r: Record, i: int)
    requires GroupsOrdered(h, gs)
    requires 0 <= i < |gs| && gs[i].date == DateKey(r)
    ensures GroupsOrdered(h + [r], gs[i := DateGroup(DateKey(r), gs[i].items + [r])])
  {
    var gs' := gs[i := DateGroup(DateKey(r), gs[i].items + [r])];
    forall j | 0 <= j < |gs'| ensures FirstSeen(h + [r], gs'[j].date) == FirstSeen(h, gs[j].date) {
      FirstSeenSnoc(h, r, gs[j].date);
    }
  }

  /** The reducer step for a record whose label is new: it opens the last group. */
  lemma {:induction false} BucketIntoNew(h: seq<Record>, gs: seq<DateGroup>, r: Record)
    requires GroupedBy(h, gs)
    requires IndexOfDate(gs, DateKey(r)) == |gs|
    ensures GroupedBy(h + [r], Bucket(gs, r))
  {
    var k := DateKey(r);
    assert Bucket(gs, r) == gs + [DateGroup(k, [r])];
    assert k !in Dates(gs);
    UnseenDate(h, gs, k);
    NewSelect(h, gs, r);
    NewOrdered(h, gs, r);
    NewCover(h, gs, r);
  }

  lemma {:induction false} NewCover(h: seq<Record>, gs: seq<DateGroup>, r: Record)
    requires GroupsCover(h, gs)
    ensures GroupsCover(h + [r], gs + [DateGroup(DateKey(r), [r])])
  {
    var gs' := gs + [DateGroup(DateKey(r), [r])];
    var h' := h + [r];
    assert Dates(gs') == Dates(gs) + [DateKey(r)];
    forall m | 0 <= m < |h'| ensures DateKey(h'[m]) in Dates(gs') {
      if m < |h| {
        assert h'[m] == h[m];
      }
    }
  }

  lemma {:induction false} NewSelect(h: seq<Record>, gs: seq<DateGroup>, r: Record)
    requires GroupsSelect(h, gs)
    requires Select(h, DateKey(r)) == []
    requires forall j :: 0 <= j < |gs| ==> gs[j].date != DateKey(r)
    ensures GroupsSelect(h + [r], gs + [DateGroup(DateKey(r), [r])])
  {
    var gs' := gs + [DateGroup(DateKey(r), [r])];
    forall j | 0 <= j < |gs'| ensures gs'[j].items == Select(h + [r], gs'[j].date) {
      SelectSnoc(h, r, gs'[j].date);
    }
  }

  lemma {:induction false} NewOrdered(h: seq<Record>, gs: seq<DateGroup>, r: Record)
    requires GroupsOrdered(h, gs)
    requires FirstSeen(h, DateKey(r)) == |h|
    ensures GroupsOrdered(h + [r], gs + [DateGroup(DateKey(r), [r])])
  {
    var gs' := gs + [DateGroup(DateKey(r), [r])];
    var h' := h + [r];
    forall j | 0 <= j < |gs'|
      ensures FirstSeen(h', gs'[j].date) == if j < |gs| then FirstSeen(h, gs[j].date) else |h|
    {
      FirstSeenSnoc(h, r, gs'[j].date);
    }
  }

  /** The reduce computes the grouping. */
  lemma {:induction false} GroupByDateIsGrouping(h: seq<Record>)
    ensures GroupedBy(h, GroupByDate(h))
    decreases |h|
  {
    if h != [] {
      var h0, r := h[..|h| - 1], h[|h| - 1];
      assert h == h0 + [r];
      GroupByDateIsGrouping(h0);
      var gs := GroupByDate(h0);
      if IndexOfDate(gs, DateKey(r)) < |gs| {
        BucketIntoExisting(h0, gs, r);
      } else {
        BucketIntoNew(h0, gs, r);
      }
    }
  }

  /** Every record of a group carries the group's label, no group is empty, and labels are
      distinct. */
  lemma {:induction false} GroupsAreHomogeneousAndDistinct(h: seq<Record>)
    ensures var gs := GroupByDate(h);
      && (forall i, x :: 0 <= i < |gs| && x in gs[i].items ==> x in h && DateKey(x) == gs[i].date)
      && (forall i :: 0 <= i < |gs| ==> gs[i].items != [])
      && (forall i, j :: 0 <= i < j < |gs| ==> gs[i].date != gs[j].date)
  {
    var gs := GroupByDate(h);
    GroupByDateIsGrouping(h);
    forall i | 0 <= i < |gs|
      ensures forall x :: x in gs[i].items ==> x in h && DateKey(x) == gs[i].date
      ensures gs[i].items != []
    {
      SelectMembers(h, gs[i].date);
      assert h[FirstSeen(h, gs[i].date)] in gs[i].items;
    }
  }

  /** Within each group the records keep their relative order from the history. */
  lemma {:induction false} GroupsKeepHistoryOrder(h: seq<Record>)
    ensures var gs := GroupByDate(h);
      forall i :: 0 <= i < |gs| ==> Subsequence(gs[i].items, h)
  {
    var gs := GroupByDate(h);
    GroupByDateIsGrouping(h);
    forall i | 0 <= i < |gs| ensures Subsequence(gs[i].items, h) {
      SelectIsFilter(h, gs[i].date);
      FilterSubsequence(h, HasDate(gs[i].date));
    }
  }

  /** `x` belongs to exactly one of the groups. */
  ghost predicate InExactlyOneGroup(gs: seq<DateGroup>, x: Record)
  {
    exists i :: 0 <= i < |gs| && x in gs[i].items
                && forall j :: 0 <= j < |gs| && x in gs[j].items ==> j == i
  }

  /** Every record of the history lands in exactly one group. */
  lemma {:induction false} EachRecordInExactlyOneGroup(h: seq<Record>)
    ensures forall k :: 0 <= k < |h| ==> InExactlyOneGroup(GroupByDate(h), h[k])
  {
    GroupByDateIsGrouping(h);
    forall k | 0 <= k < |h| {
      OneGroupFor(h, GroupByDate(h), k);
    }
  }

  lemma {:induction false} OneGroupFor(h: seq<Record>, gs: seq<DateGroup>, k: int)
    requires GroupedBy(h, gs)
    requires 0 <= k < |h|
    ensures InExactlyOneGroup(gs, h[k])
  {
    var d := DateKey(h[k]);
    assert d in Dates(gs);
    var i :| 0 <= i < |gs| && Dates(gs)[i] == d;
    SelectMembers(h, d);
    assert h[k] in gs[i].items;
    forall j | 0 <= j < |gs| && h[k] in gs[j].items ensures j == i {
      SelectMembers(h, gs[j].date);
      assert gs[j].date == gs[i].date;
    }
  }

  /** The groups' records, concatenated in emission order. */
  function Flatten(gs: seq<DateGroup>): seq<Record>
    decreases |gs|
  {
    if gs == [] then [] else Flatten(gs[..|gs| - 1]) + gs[|gs| - 1].items
  }

  /** The sum of the groups' sizes. */
  function TotalSize(gs: seq<DateGroup>): nat
    decreases |gs|
  {
    if gs == [] then 0 else TotalSize(gs[..|gs| - 1]) + |gs[|gs| - 1].items|
  }

  lemma {:induction false} FlattenSnoc(gs: seq<DateGroup>)
    requires gs != []
    ensures multiset(Flatten(gs)) == multiset(Flatten(gs[..|gs| - 1])) + multiset(gs[|gs| - 1].items)
  {
  }

  lemma {:induction false} MultisetRegroup<T>(a: multiset<T>, b: multiset<T>, c: multiset<T>, d: multiset<T>, e: multiset<T>)
    requires a + c == d + e
    ensures (a + b) + c == (d + b) + e
  {
    forall x ensures ((a + b) + c)[x] == ((d + b) + e)[x] {
      assert (a + c)[x] == (d + e)[x];
    }
  }

  /** Replacing one group's records swaps those records for the new ones in the flattening. */
  lemma {:induction false} FlattenUpdate(gs: seq<DateGroup>, i: int, g: DateGroup)
    requires 0 <= i < |gs|
    ensures multiset(Flatten(gs[i := g])) + multiset(gs[i].items) == multiset(Flatten(gs)) + multiset(g.items)
    decreases |gs|
  {
    var n := |gs|;
    var us := gs[i := g];
    var init, uinit := gs[..n - 1], us[..n - 1];
    FlattenSnoc(gs);
    FlattenSnoc(us);
    if i == n - 1 {
      assert uinit == init;
    } else {
      assert uinit == init[i := g];
      assert init[i] == gs[i] && us[n - 1] == gs[n - 1];
      FlattenUpdate(init, i, g);
      var a, last, c := multiset(Flatten(uinit)), multiset(gs[n - 1].items), multiset(Flatten(init));
      assert multiset(Flatten(us)) == a + last;
      assert multiset(Flatten(gs)) == c + last;
      MultisetRegroup(a, last, multiset(gs[i].items), c, multiset(g.items));
    }
  }

  lemma {:induction false} FlattenSize(gs: seq<DateGroup>)
    ensures |Flatten(gs)| == TotalSize(gs)
    decreases |gs|
  {
    if gs != [] {
      FlattenSize(gs[..|gs| - 1]);
    }
  }

  lemma {:induction false} MultisetCancel<T>(a: multiset<T>, b: multiset<T>, c: multiset<T>)
    requires a + b == c + b
    ensures a == c
  {
    assert forall x :: a[x] == (a + b)[x] - b[x];
  }

  /** One reducer step adds exactly its record to the concatenated groups. */
  lemma {:induction false} BucketKeepsAll(gs: seq<DateGroup>, r: Record)
    ensures multiset(Flatten(Bucket(gs, r))) == multiset(Flatten(gs)) + multiset{r}
  {
    var k := DateKey(r);
    var i := IndexOfDate(gs, k);
    if i < |gs| {
      var g := DateGroup(k, gs[i].items + [r]);
      assert Bucket(gs, r) == gs[i := g];
      var b := multiset(gs[i].items);
      FlattenUpdate(gs, i, g);
      assert multiset(g.items) == b + multiset{r};
      MultisetCancel(multiset(Flatten(gs[i := g])), b, multiset(Flatten(gs)) + multiset{r});
    } else {
      var gs' := gs + [DateGroup(k, [r])];
      assert Bucket(gs, r) == gs';
      assert gs'[..|gs|] == gs;
      FlattenSnoc(gs');
    }
  }

  lemma {:induction false} LastSplit<T>(s: seq<T>)
    requires s != []
    ensures multiset(s) == multiset(s[..|s| - 1]) + multiset{s[|s| - 1]}
  {
    assert s == s[..|s| - 1] + [s[|s| - 1]];
  }

  /** Concatenating the groups gives a rearrangement of the history: no record is lost or
      duplicated by the grouping. */
  lemma {:induction false} GroupByDateIsPermutation(h: seq<Record>)
    ensures multiset(Flatten(GroupByDate(h))) == multiset(h)
    decreases |h|
  {
    if h != [] {
      var h0, r := h[..|h| - 1], h[|h| - 1];
      var gs0 := GroupByDate(h0);
      GroupByDateIsPermutation(h0);
      BucketKeepsAll(gs0, r);
      assert GroupByDate(h) == Bucket(gs0, r);
      LastSplit(h);
    }
  }

  /** The group sizes sum to the length of the history. */
  lemma {:induction false} GroupSizesSumToLength(h: seq<Record>)
    ensures TotalSize(GroupByDate(h)) == |h|
  {
    var f := Flatten(GroupByDate(h));
    GroupByDateIsPermutation(h);
    FlattenSize(GroupByDate(h));
    assert |multiset(f)| == |f|;
    assert |multiset(h)| == |h|;
  }

  // --------------------------------------------------------------- the view

  /** What the view shows: the empty-state message, or the date groups. */
  datatype HistoryView = EmptyHistory | Groups(groups: seq<DateGroup>)

  function Render(h: seq<Record>): (v: HistoryView)
    ensures v.EmptyHistory? <==> h == []
    ensures v.Groups? ==> |v.groups| > 0 && GroupedBy(h, v.groups)
  {
    if |h| == 0 then EmptyHistory
    else
      GroupByDateIsGrouping(h);
      assert DateKey(h[0]) in Dates(GroupByDate(h));
      Groups(GroupByDate(h))
  }

  /** The status mark shown beside each record. */
  datatype Mark = Done | NotDone

  /** The mark depends on nothing but the record's completion flag. */
  function StatusMark(r: Record): (m: Mark)
    ensures m == Done <==> r.completed
  {
    if r.completed then Done else NotDone
  }
}
