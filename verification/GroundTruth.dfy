/** The expected state of a benchmark item before a cutoff. */
module GroundTruth {
  import opened Text
  import Ledger

  datatype ChangeType = Create | UpdateOwner | UpdateDate | UpdateStatus | Supersede

  datatype Change = Change(
    changeType: ChangeType, mentions: seq<string>, owner: Option<string>, dueDate: Option<string>,
    status: Option<Ledger.Status>, supersedes: Option<string>)

  datatype Item = Item(id: string, changes: seq<Change>)

  /** Artifact ids are unique, so their times form a map. Times are compared only. */
  datatype Corpus = Corpus(occurredAt: map<string, int>, items: seq<Item>)

  /** The corpus schema's promise: every change has a mention, and every mention names an artifact. */
  predicate IsCorpus(corpus: Corpus) {
    forall item <- corpus.items :: IsItem(corpus, item)
  }

  predicate IsItem(corpus: Corpus, item: Item) {
    forall change <- item.changes :: AreMentions(corpus, change.mentions)
  }

  predicate AreMentions(corpus: Corpus, mentions: seq<string>) {
    mentions != [] && forall m <- mentions :: m in corpus.occurredAt
  }

  // ----- when a change becomes visible -------------------------------------

  function TimeOf(corpus: Corpus, mention: string): int {
    if mention in corpus.occurredAt then corpus.occurredAt[mention] else 0
  }

  /** The time of the earliest of the first `n` mentions. */
  function EarliestUpTo(corpus: Corpus, mentions: seq<string>, n: nat): (earliest: int)
    requires 0 < n <= |mentions|
    ensures forall i :: 0 <= i < n ==> earliest <= TimeOf(corpus, mentions[i])
    ensures exists i :: 0 <= i < n && earliest == TimeOf(corpus, mentions[i])
  {
    var last := TimeOf(corpus, mentions[n - 1]);
    if n == 1 then last
    else
      var before := EarliestUpTo(corpus, mentions, n - 1);
      if last < before then last else before
  }

  function Earliest(corpus: Corpus, change: Change): int {
    if change.mentions == [] then 0 else EarliestUpTo(corpus, change.mentions, |change.mentions|)
  }

  method EarliestMention(corpus: Corpus, mentions: seq<string>) returns (earliest: int)
    requires AreMentions(corpus, mentions)
    ensures earliest == EarliestUpTo(corpus, mentions, |mentions|)
  {
    earliest := corpus.occurredAt[mentions[0]];
    for i := 1 to |mentions|
      invariant earliest == EarliestUpTo(corpus, mentions, i)
    {
      assert mentions[i] in mentions;
      if corpus.occurredAt[mentions[i]] < earliest {
        earliest := corpus.occurredAt[mentions[i]];
      }
    }
  }

  /** A change with its time and its authored place. */
  datatype Dated = Dated(time: int, index: nat)

  function AllDated(corpus: Corpus, item: Item, n: nat): seq<Dated>
    requires n <= |item.changes|
  {
    if n == 0 then [] else AllDated(corpus, item, n - 1) + [Dated(Earliest(corpus, item.changes[n - 1]), n - 1)]
  }

  function Before(rows: seq<Dated>, n: nat, cutoff: int): seq<Dated>
    requires n <= |rows|
  {
    if n == 0 then [] else KeepBefore(Before(rows, n - 1, cutoff), rows[n - 1], cutoff)
  }

  function KeepBefore(kept: seq<Dated>, r: Dated, cutoff: int): seq<Dated> {
    if r.time < cutoff then kept + [r] else kept
  }

  predicate Precedes(a: Dated, b: Dated) {
    a.time < b.time || (a.time == b.time && a.index < b.index)
  }

  function Insert(sorted: seq<Dated>, r: Dated): seq<Dated> {
    if sorted == [] || Precedes(sorted[|sorted| - 1], r) then sorted + [r]
    else Insert(sorted[..|sorted| - 1], r) + [sorted[|sorted| - 1]]
  }

  function Sorted(rows: seq<Dated>, n: nat): seq<Dated>
    requires n <= |rows|
  {
    if n == 0 then [] else Insert(Sorted(rows, n - 1), rows[n - 1])
  }

  /** The visible changes in chronological, then authored order: filtered first, then sorted. */
  function Visible(corpus: Corpus, item: Item, cutoff: int): seq<Dated> {
    var dated := AllDated(corpus, item, |item.changes|);
    var visible := Before(dated, |dated|, cutoff);
    Sorted(visible, |visible|)
  }

  method VisibleChanges(corpus: Corpus, item: Item, cutoff: int) returns (visible: seq<Dated>)
    requires IsItem(corpus, item)
    ensures visible == Visible(corpus, item, cutoff)
  {
    var dated := [];
    for i := 0 to |item.changes|
      invariant dated == AllDated(corpus, item, i)
    {
      assert item.changes[i] in item.changes;
      var earliest := EarliestMention(corpus, item.changes[i].mentions);
      dated := dated + [Dated(earliest, i)];
    }
    visible := [];
    for i := 0 to |dated|
      invariant visible == Before(dated, i, cutoff)
    {
      if dated[i].time < cutoff {
        visible := visible + [dated[i]];
      }
    }
    visible := Sorted(visible, |visible|);
  }

  // ----- the state at a cutoff ---------------------------------------------

  datatype Carried = Carried(status: Option<Ledger.Status>, owner: Option<string>, dueDate: Option<string>)

  datatype ItemState = ItemState(present: bool, carried: Carried, last: Option<nat>, superseded: bool)

  const NOTHING := Carried(None, None, None)

  function Or<T>(latest: Option<T>, previous: Option<T>): Option<T> {
    if latest.Some? then latest else previous
  }

  function Apply(carried: Carried, change: Change): Carried {
    Carried(Or(change.status, carried.status), Or(change.owner, carried.owner), Or(change.dueDate, carried.dueDate))
  }

  predicate AreIndices(item: Item, rows: seq<Dated>) {
    forall i :: 0 <= i < |rows| ==> rows[i].index < |item.changes|
  }

  /** Folds the changes `rows[lo..hi]` over what was carried before. */
  function Fold(item: Item, rows: seq<Dated>, lo: nat, hi: nat, carried: Carried): Carried
    requires lo <= hi <= |rows| && AreIndices(item, rows)
  {
    if lo == hi then carried else Apply(Fold(item, rows, lo, hi - 1, carried), item.changes[rows[hi - 1].index])
  }

  /** Whether change `k` of item `o` has superseded `id` before the cutoff. */
  predicate Supersedes(corpus: Corpus, o: nat, k: nat, id: string, cutoff: int) {
    && o < |corpus.items| && corpus.items[o].id != id && k < |corpus.items[o].changes|
    && corpus.items[o].changes[k].changeType == Supersede && corpus.items[o].changes[k].supersedes == Some(id)
    && Earliest(corpus, corpus.items[o].changes[k]) < cutoff
  }

  ghost predicate IsSuperseded(corpus: Corpus, id: string, cutoff: int) {
    exists o: nat, k: nat :: Supersedes(corpus, o, k, id, cutoff)
  }

  method IsSupersededByCutoff(corpus: Corpus, id: string, cutoff: int) returns (superseded: bool)
    requires IsCorpus(corpus)
    ensures superseded <==> IsSuperseded(corpus, id, cutoff)
  {
    for o := 0 to |corpus.items|
      invariant forall p: nat, k: nat :: p < o ==> !Supersedes(corpus, p, k, id, cutoff)
    {
      var other := corpus.items[o];
      if other.id != id {
        assert other in corpus.items;
        var visible := VisibleChanges(corpus, other, cutoff);
        VisibleIndices(corpus, other, cutoff);
        for v := 0 to |visible|
          invariant forall w :: 0 <= w < v ==> !Supersedes(corpus, o, visible[w].index, id, cutoff)
        {
          var change := other.changes[visible[v].index];
          if change.changeType == Supersede && change.supersedes == Some(id) {
            assert Supersedes(corpus, o, visible[v].index, id, cutoff);
            return true;
          }
        }
        forall k: nat ensures !Supersedes(corpus, o, k, id, cutoff) {
          NotAmongVisible(corpus, o, k, id, cutoff);
        }
      }
    }
    return false;
  }

  lemma {:induction false} NotAmongVisible(corpus: Corpus, o: nat, k: nat, id: string, cutoff: int)
    requires o < |corpus.items|
    requires forall w :: 0 <= w < |Visible(corpus, corpus.items[o], cutoff)| ==>
      !Supersedes(corpus, o, Visible(corpus, corpus.items[o], cutoff)[w].index, id, cutoff)
    ensures !Supersedes(corpus, o, k, id, cutoff)
  {
    var other := corpus.items[o];
    if k < |other.changes| && Earliest(corpus, other.changes[k]) < cutoff {
      var w := VisibleContains(corpus, other, cutoff, k);
    }
  }

  method StateAtCutoff(corpus: Corpus, item: Item, cutoff: int) returns (state: ItemState)
    requires IsCorpus(corpus) && item in corpus.items
    ensures IsStateAt(corpus, item, cutoff, state)
  {
    var visible := VisibleChanges(corpus, item, cutoff);
    VisibleIndices(corpus, item, cutoff);
    var superseded := IsSupersededByCutoff(corpus, item.id, cutoff);
    if visible == [] {
      return ItemState(false, NOTHING, None, superseded);
    }
    var status, owner, dueDate := None, None, None;
    for i := 0 to |visible|
      invariant Carried(status, owner, dueDate) == Fold(item, visible, 0, i, NOTHING)
    {
      var change := item.changes[visible[i].index];
      if change.status.Some? {
        status := change.status;
      }
      if change.owner.Some? {
        owner := change.owner;
      }
      if change.dueDate.Some? {
        dueDate := change.dueDate;
      }
    }
    if superseded {
      status := Some(Ledger.Superseded);
    }
    state := ItemState(true, Carried(status, owner, dueDate), Some(visible[|visible| - 1].index), superseded);
  }

  /** What an item carries from its own visible changes, before its supersession is considered. */
  function CarriedAt(corpus: Corpus, item: Item, cutoff: int): Carried {
    VisibleIndices(corpus, item, cutoff);
    var visible := Visible(corpus, item, cutoff);
    Fold(item, visible, 0, |visible|, NOTHING)
  }

  ghost predicate IsStateAt(corpus: Corpus, item: Item, cutoff: int, state: ItemState) {
    var visible := Visible(corpus, item, cutoff);
    && (state.present <==> visible != [])
    && (state.superseded <==> IsSuperseded(corpus, item.id, cutoff))
    && state.last == (if visible == [] then None else Some(visible[|visible| - 1].index))
    && state.carried ==
       if visible != [] && state.superseded then CarriedAt(corpus, item, cutoff).(status := Some(Ledger.Superseded))
       else CarriedAt(corpus, item, cutoff)
  }

  // ----- what is visible, and in which order -------------------------------

  lemma {:induction false} DatedAt(corpus: Corpus, item: Item, n: nat)
    requires n <= |item.changes|
    ensures |AllDated(corpus, item, n)| == n
    ensures forall k :: 0 <= k < n ==> AllDated(corpus, item, n)[k] == Dated(Earliest(corpus, item.changes[k]), k)
  {
    if n > 0 {
      DatedAt(corpus, item, n - 1);
    }
  }

  lemma {:induction false} BeforeMember(rows: seq<Dated>, n: nat, cutoff: int, r: Dated)
    requires n <= |rows|
    ensures r in Before(rows, n, cutoff) <==> r in rows[..n] && r.time < cutoff
  {
    if n > 0 {
      BeforeMember(rows, n - 1, cutoff, r);
      assert rows[..n] == rows[..n - 1] + [rows[n - 1]];
    }
  }

  lemma {:induction false} CountSnoc<T>(s: seq<T>, r: T, x: T)
    ensures multiset(s + [r])[x] == multiset(s)[x] + if x == r then 1 else 0
  {
  }

  lemma {:induction false} CountTake<T>(s: seq<T>, n: nat, x: T)
    requires 0 < n <= |s|
    ensures multiset(s[..n])[x] == multiset(s[..n - 1])[x] + if x == s[n - 1] then 1 else 0
  {
    CountSnoc(s[..n - 1], s[n - 1], x);
    assert s[..n] == s[..n - 1] + [s[n - 1]];
  }

  lemma {:induction false} CountLast<T>(s: seq<T>, x: T)
    requires s != []
    ensures multiset(s)[x] == multiset(s[..|s| - 1])[x] + if x == s[|s| - 1] then 1 else 0
  {
    CountTake(s, |s|, x);
    assert s[..|s|] == s;
  }

  lemma {:induction false} InsertMember(sorted: seq<Dated>, r: Dated, x: Dated)
    ensures multiset(Insert(sorted, r))[x] == multiset(sorted)[x] + if x == r then 1 else 0
  {
    var n := |sorted| - 1;
    if sorted == [] || Precedes(sorted[n], r) {
      CountSnoc(sorted, r, x);
    } else {
      InsertMember(sorted[..n], r, x);
      CountSnoc(Insert(sorted[..n], r), sorted[n], x);
      CountLast(sorted, x);
    }
  }

  lemma {:induction false} SortedMember(rows: seq<Dated>, n: nat, x: Dated)
    requires n <= |rows|
    ensures multiset(Sorted(rows, n))[x] == multiset(rows[..n])[x]
  {
    if n == 0 {
      assert rows[..0] == [];
    } else {
      SortedMember(rows, n - 1, x);
      InsertMember(Sorted(rows, n - 1), rows[n - 1], x);
      CountTake(rows, n, x);
    }
  }

  /** A change is visible exactly when its earliest mention lies before the cutoff. */
  lemma {:induction false} VisibleExactlyWhen(corpus: Corpus, item: Item, cutoff: int, r: Dated)
    ensures r in Visible(corpus, item, cutoff)
            <==> r.index < |item.changes| && r.time == Earliest(corpus, item.changes[r.index]) && r.time < cutoff
  {
    var dated := AllDated(corpus, item, |item.changes|);
    var visible := Before(dated, |dated|, cutoff);
    DatedAt(corpus, item, |item.changes|);
    BeforeMember(dated, |dated|, cutoff, r);
    SortedMember(visible, |visible|, r);
    assert dated[..|dated|] == dated && visible[..|visible|] == visible;
    assert r in Visible(corpus, item, cutoff) <==> r in multiset(Visible(corpus, item, cutoff));
    assert r in visible <==> r in multiset(visible);
    if r in dated {
      var k :| 0 <= k < |dated| && dated[k] == r;
    }
    if r.index < |item.changes| && r.time == Earliest(corpus, item.changes[r.index]) {
      assert dated[r.index] == r;
    }
  }

  lemma {:induction false} VisibleIndices(corpus: Corpus, item: Item, cutoff: int)
    ensures AreIndices(item, Visible(corpus, item, cutoff))
    ensures forall i :: 0 <= i < |Visible(corpus, item, cutoff)| ==>
      Earliest(corpus, item.changes[Visible(corpus, item, cutoff)[i].index]) < cutoff
  {
    var visible := Visible(corpus, item, cutoff);
    forall i | 0 <= i < |visible|
      ensures visible[i].index < |item.changes| && Earliest(corpus, item.changes[visible[i].index]) < cutoff
    {
      VisibleExactlyWhen(corpus, item, cutoff, visible[i]);
    }
  }

  lemma {:induction false} VisibleContains(corpus: Corpus, item: Item, cutoff: int, k: nat) returns (w: nat)
    requires k < |item.changes| && Earliest(corpus, item.changes[k]) < cutoff
    ensures w < |Visible(corpus, item, cutoff)| && Visible(corpus, item, cutoff)[w].index == k
  {
    var r := Dated(Earliest(corpus, item.changes[k]), k);
    VisibleExactlyWhen(corpus, item, cutoff, r);
    w :| 0 <= w < |Visible(corpus, item, cutoff)| && Visible(corpus, item, cutoff)[w] == r;
  }

  predicate IsChronological(rows: seq<Dated>) {
    forall i, j :: 0 <= i < j < |rows| ==> Precedes(rows[i], rows[j])
  }

  lemma {:induction false} InsertKeepsOrder(sorted: seq<Dated>, r: Dated)
    requires IsChronological(sorted) && forall i :: 0 <= i < |sorted| ==> sorted[i].index != r.index
    ensures IsChronological(Insert(sorted, r))
    ensures forall x :: x in Insert(sorted, r) ==> x == r || x in sorted
  {
    if sorted != [] && !Precedes(sorted[|sorted| - 1], r) {
      var init, last := sorted[..|sorted| - 1], sorted[|sorted| - 1];
      InsertKeepsOrder(init, r);
      forall i | 0 <= i < |Insert(init, r)| ensures Precedes(Insert(init, r)[i], last) {
        assert Insert(init, r)[i] in Insert(init, r);
      }
    }
  }

  lemma {:induction false} SortedIsChronological(rows: seq<Dated>, n: nat)
    requires n <= |rows| && forall i, j :: 0 <= i < j < |rows| ==> rows[i].index != rows[j].index
    ensures IsChronological(Sorted(rows, n))
    ensures forall x :: x in Sorted(rows, n) ==> x in rows[..n]
  {
    if n > 0 {
      SortedIsChronological(rows, n - 1);
      var sorted := Sorted(rows, n - 1);
      forall i | 0 <= i < |sorted| ensures sorted[i].index != rows[n - 1].index {
        assert sorted[i] in rows[..n - 1];
      }
      InsertKeepsOrder(sorted, rows[n - 1]);
      assert rows[..n] == rows[..n - 1] + [rows[n - 1]];
    }
  }

  lemma {:induction false} BeforeDistinct(rows: seq<Dated>, n: nat, cutoff: int)
    requires n <= |rows| && forall i :: 0 <= i < |rows| ==> rows[i].index == i
    ensures forall i :: 0 <= i < |Before(rows, n, cutoff)| ==> Before(rows, n, cutoff)[i].index < n
    ensures forall i, j :: 0 <= i < j < |Before(rows, n, cutoff)| ==>
      Before(rows, n, cutoff)[i].index != Before(rows, n, cutoff)[j].index
  {
    if n > 0 {
      BeforeDistinct(rows, n - 1, cutoff);
    }
  }

  /** The visible changes come in order of time, and of authoring among equal times. */
  lemma {:induction false} VisibleIsChronological(corpus: Corpus, item: Item, cutoff: int)
    ensures IsChronological(Visible(corpus, item, cutoff))
  {
    var dated := AllDated(corpus, item, |item.changes|);
    var visible := Before(dated, |dated|, cutoff);
    DatedAt(corpus, item, |item.changes|);
    BeforeDistinct(dated, |dated|, cutoff);
    SortedIsChronological(visible, |visible|);
  }

  // ----- a later cutoff only adds ------------------------------------------

  /** Drops the rows at the end that are not before the cutoff. */
  function Cut(rows: seq<Dated>, cutoff: int): seq<Dated> {
    if rows == [] || rows[|rows| - 1].time < cutoff then rows else Cut(rows[..|rows| - 1], cutoff)
  }

  lemma {:induction false} CutGrows(rows: seq<Dated>, c1: int, c2: int)
    requires c1 <= c2
    ensures Cut(rows, c1) <= Cut(rows, c2) <= rows
  {
    if rows != [] && rows[|rows| - 1].time >= c1 {
      CutGrows(rows[..|rows| - 1], c1, c2);
    }
  }

  lemma {:induction false} CutInsert(sorted: seq<Dated>, r: Dated, cutoff: int)
    ensures Cut(Insert(sorted, r), cutoff) == if r.time < cutoff then Insert(Cut(sorted, cutoff), r) else Cut(sorted, cutoff)
  {
    if sorted == [] {
      assert Cut([r][..0], cutoff) == [];
    } else {
      var init, last := sorted[..|sorted| - 1], sorted[|sorted| - 1];
      if Precedes(last, r) {
        assert (sorted + [r])[..|sorted|] == sorted;
      } else {
        assert (Insert(init, r) + [last])[..|Insert(init, r)|] == Insert(init, r);
        CutInsert(init, r, cutoff);
      }
    }
  }

  /** Filtering and then sorting is sorting and then cutting. */
  lemma {:induction false} SortThenCut(rows: seq<Dated>, n: nat, cutoff: int)
    requires n <= |rows|
    ensures var kept := Before(rows, n, cutoff); Sorted(kept, |kept|) == Cut(Sorted(rows, n), cutoff)
  {
    if n > 0 {
      SortThenCut(rows, n - 1, cutoff);
      SortThenCutStep(Before(rows, n - 1, cutoff), Sorted(rows, n - 1), rows[n - 1], cutoff);
    }
  }

  lemma {:induction false} SortThenCutStep(kept: seq<Dated>, sorted: seq<Dated>, r: Dated, cutoff: int)
    requires Sorted(kept, |kept|) == Cut(sorted, cutoff)
    ensures var more := KeepBefore(kept, r, cutoff); Sorted(more, |more|) == Cut(Insert(sorted, r), cutoff)
  {
    SortedStep(kept, r, cutoff);
    CutInsert(sorted, r, cutoff);
  }

  lemma {:induction false} SortedStep(before: seq<Dated>, r: Dated, cutoff: int)
    ensures var kept := KeepBefore(before, r, cutoff);
            Sorted(kept, |kept|)
            == if r.time < cutoff then Insert(Sorted(before, |before|), r) else Sorted(before, |before|)
  {
    if r.time < cutoff {
      SortedPrefix(before, [r], |before|);
    }
  }

  lemma {:induction false} SortedPrefix(a: seq<Dated>, b: seq<Dated>, n: nat)
    requires n <= |a|
    ensures Sorted(a + b, n) == Sorted(a, n)
  {
    if n > 0 {
      SortedPrefix(a, b, n - 1);
    }
  }

  /** What is visible at an earlier cutoff is a prefix of what is visible at a later one. */
  lemma {:induction false} VisibleGrows(corpus: Corpus, item: Item, c1: int, c2: int)
    requires c1 <= c2
    ensures Visible(corpus, item, c1) <= Visible(corpus, item, c2)
  {
    var dated := AllDated(corpus, item, |item.changes|);
    SortThenCut(dated, |dated|, c1);
    SortThenCut(dated, |dated|, c2);
    CutGrows(Sorted(dated, |dated|), c1, c2);
  }

  lemma {:induction false} FoldSplits(item: Item, a: seq<Dated>, b: seq<Dated>, hi: nat, carried: Carried)
    requires a <= b && |a| <= hi <= |b| && AreIndices(item, b)
    ensures AreIndices(item, a)
    ensures Fold(item, b, 0, hi, carried) == Fold(item, b, |a|, hi, Fold(item, a, 0, |a|, carried))
    decreases hi
  {
    assert forall i :: 0 <= i < |a| ==> a[i] == b[i];
    if hi == |a| {
      FoldPrefix(item, a, b, hi, carried);
    } else {
      FoldSplits(item, a, b, hi - 1, carried);
    }
  }

  lemma {:induction false} FoldPrefix(item: Item, a: seq<Dated>, b: seq<Dated>, hi: nat, carried: Carried)
    requires hi <= |a| && a <= b && AreIndices(item, a) && AreIndices(item, b)
    ensures Fold(item, a, 0, hi, carried) == Fold(item, b, 0, hi, carried)
  {
    if hi > 0 {
      FoldPrefix(item, a, b, hi - 1, carried);
      assert a[hi - 1] == b[hi - 1];
    }
  }

  /** The carried fields at a later cutoff are those at an earlier one, folded over only the changes in between. */
  lemma {:induction false} StateIsIncremental(corpus: Corpus, item: Item, c1: int, c2: int)
    requires c1 <= c2
    ensures AreIndices(item, Visible(corpus, item, c2))
    ensures var later := Visible(corpus, item, c2);
            var seen := |Visible(corpus, item, c1)|;
            && seen <= |later|
            && CarriedAt(corpus, item, c2) == Fold(item, later, seen, |later|, CarriedAt(corpus, item, c1))
            && (forall i :: seen <= i < |later| ==> c1 <= later[i].time < c2)
  {
    var now, later := Visible(corpus, item, c1), Visible(corpus, item, c2);
    VisibleGrows(corpus, item, c1, c2);
    VisibleIndices(corpus, item, c2);
    FoldSplits(item, now, later, |later|, NOTHING);
    forall i | |now| <= i < |later| ensures c1 <= later[i].time < c2 {
      VisibleExactlyWhen(corpus, item, c2, later[i]);
      NotYetVisible(corpus, item, c1, c2, i);
    }
  }

  /** A row past the earlier prefix was not visible then. */
  lemma {:induction false} NotYetVisible(corpus: Corpus, item: Item, c1: int, c2: int, i: nat)
    requires c1 <= c2 && |Visible(corpus, item, c1)| <= i < |Visible(corpus, item, c2)|
    ensures Visible(corpus, item, c2)[i].time >= c1
  {
    var now, later := Visible(corpus, item, c1), Visible(corpus, item, c2);
    VisibleGrows(corpus, item, c1, c2);
    VisibleIsChronological(corpus, item, c2);
    VisibleExactlyWhen(corpus, item, c2, later[i]);
    VisibleExactlyWhen(corpus, item, c1, later[i]);
    forall j | 0 <= j < |now| ensures now[j] != later[i] {
      assert Precedes(later[j], later[i]);
    }
  }

  /** Once an item exists or is superseded, no later cutoff takes that back. */
  lemma {:induction false} StateNeverReverts(corpus: Corpus, item: Item, c1: int, c2: int, s1: ItemState, s2: ItemState)
    requires c1 <= c2 && IsStateAt(corpus, item, c1, s1) && IsStateAt(corpus, item, c2, s2)
    ensures s1.present ==> s2.present
    ensures s1.superseded ==> s2.superseded
    ensures s1.present && s1.superseded ==> s2.carried.status == Some(Ledger.Superseded)
  {
    VisibleGrows(corpus, item, c1, c2);
    if s1.superseded {
      var o: nat, k: nat :| Supersedes(corpus, o, k, item.id, c1);
      assert Supersedes(corpus, o, k, item.id, c2);
    }
  }

  // ----- carrying and mentions ---------------------------------------------

  /** `k` is the last of the first `hi` visible changes that sets the field `sets` looks at. */
  predicate IsLastSetter(item: Item, rows: seq<Dated>, hi: nat, k: nat, sets: Change -> bool)
    requires hi <= |rows| && AreIndices(item, rows)
  {
    k < hi && sets(item.changes[rows[k].index]) && forall j :: k < j < hi ==> !sets(item.changes[rows[j].index])
  }

  /** Each carried field is the one set by the last visible change that set it. */
  lemma {:induction false} FieldsAreLastSet(item: Item, rows: seq<Dated>, hi: nat, k: nat)
    requires k < hi <= |rows| && AreIndices(item, rows)
    ensures var carried, change := Fold(item, rows, 0, hi, NOTHING), item.changes[rows[k].index];
            && (IsLastSetter(item, rows, hi, k, (c: Change) => c.owner.Some?) ==> carried.owner == change.owner)
            && (IsLastSetter(item, rows, hi, k, (c: Change) => c.dueDate.Some?) ==> carried.dueDate == change.dueDate)
            && (IsLastSetter(item, rows, hi, k, (c: Change) => c.status.Some?) ==> carried.status == change.status)
  {
    if k < hi - 1 {
      FieldsAreLastSet(item, rows, hi - 1, k);
    }
  }

  /** A field that no visible change set has no value. */
  lemma {:induction false} UnsetFieldsAreEmpty(item: Item, rows: seq<Dated>, hi: nat)
    requires hi <= |rows| && AreIndices(item, rows)
    ensures var carried := Fold(item, rows, 0, hi, NOTHING);
            && (carried.owner.Some? <==> exists k :: 0 <= k < hi && item.changes[rows[k].index].owner.Some?)
            && (carried.dueDate.Some? <==> exists k :: 0 <= k < hi && item.changes[rows[k].index].dueDate.Some?)
            && (carried.status.Some? <==> exists k :: 0 <= k < hi && item.changes[rows[k].index].status.Some?)
  {
    if hi > 0 {
      UnsetFieldsAreEmpty(item, rows, hi - 1);
    }
  }

  /** Further mentions, wherever they are listed, never delay a change; later ones do not move it at all. */
  lemma {:induction false} MoreMentionsNeverDelay(corpus: Corpus, change: Change, more: seq<string>)
    requires change.mentions != [] && forall m <- change.mentions :: m in more
    ensures Earliest(corpus, change.(mentions := more)) <= Earliest(corpus, change)
    ensures (forall m <- more :: m in change.mentions || TimeOf(corpus, m) >= Earliest(corpus, change))
            ==> Earliest(corpus, change.(mentions := more)) == Earliest(corpus, change)
  {
    var n := |change.mentions|;
    var i :| 0 <= i < n && EarliestUpTo(corpus, change.mentions, n) == TimeOf(corpus, change.mentions[i]);
    assert change.mentions[i] in more;
    var j :| 0 <= j < |more| && more[j] == change.mentions[i];
    var k :| 0 <= k < |more| && EarliestUpTo(corpus, more, |more|) == TimeOf(corpus, more[k]);
    assert more[k] in more;
  }
}
