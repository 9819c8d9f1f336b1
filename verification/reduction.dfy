/**
  `GroupHoursByDateAndType`: the extracted entries are grouped by their
  `(Date, RateType)` pair; each group collapses to the earliest entry carrying
  the group's latest revision number, whose duration is replaced by the sum of
  the durations of the whole group.
 */
module Reduction {
  import opened Wrappers
  import opened InterimHours
  import Seqs

  /** The entries sharing one `(Date, RateType)` key, in their original order. */
  datatype Group = Group(key: GroupKey, members: seq<CanonicalInterimHours>)

  /** Whether an entry's key is `k`. */
  function KeyIs(k: GroupKey): CanonicalInterimHours -> bool {
    e => KeyOf(e) == k
  }

  /** The entries of `es` whose key is `k`, in order. */
  function Members(es: seq<CanonicalInterimHours>, k: GroupKey): (r: seq<CanonicalInterimHours>)
    ensures |r| <= |es|
    ensures forall i :: 0 <= i < |r| ==> KeyOf(r[i]) == k && r[i] in es
    ensures forall i :: 0 <= i < |es| && KeyOf(es[i]) == k ==> es[i] in r
    ensures Seqs.Subsequence(r, es)
  {
    Seqs.FilterSubsequence(es, KeyIs(k));
    Seqs.Filter(es, KeyIs(k))
  }

  /** The position of the group keyed `k`, if there is one. */
  function GroupIndex(gs: seq<Group>, k: GroupKey): (r: Option<nat>)
    ensures r.Some? ==> r.value < |gs| && gs[r.value].key == k
    ensures r.None? ==> forall j :: 0 <= j < |gs| ==> gs[j].key != k
    decreases |gs|
  {
    if gs == [] then None
    else if gs[0].key == k then Some(0)
    else
      match GroupIndex(gs[1..], k)
      case None => None
      case Some(j) => Some(j + 1)
  }

  predicate DistinctKeys(gs: seq<Group>) {
    forall i, j :: 0 <= i < j < |gs| ==> gs[i].key != gs[j].key
  }

  /** Files one entry: into the group with its key when there is one,
      otherwise into a new group at the end. */
  function Insert(gs: seq<Group>, e: CanonicalInterimHours): (r: seq<Group>)
    requires DistinctKeys(gs)
    ensures DistinctKeys(r)
    ensures (exists i :: 0 <= i < |gs| && gs[i].key == KeyOf(e)) ==> |r| == |gs|
    ensures (forall i :: 0 <= i < |gs| ==> gs[i].key != KeyOf(e)) ==> |r| == |gs| + 1
    ensures forall i :: 0 <= i < |gs| ==> r[i].key == gs[i].key
    ensures forall i :: 0 <= i < |gs| ==> r[i].members == gs[i].members + (if gs[i].key == KeyOf(e) then [e] else [])
    ensures |r| == |gs| + 1 ==> r[|gs|] == Group(KeyOf(e), [e])
  {
    match GroupIndex(gs, KeyOf(e))
    case Some(j) => gs[j := Group(gs[j].key, gs[j].members + [e])]
    case None => gs + [Group(KeyOf(e), [e])]
  }

  lemma {:induction false} InsertInto(gs: seq<Group>, e: CanonicalInterimHours, j: nat)
    requires DistinctKeys(gs) && j < |gs| && gs[j].key == KeyOf(e)
    ensures Insert(gs, e) == gs[j := Group(gs[j].key, gs[j].members + [e])]
  {
  }

  lemma {:induction false} InsertNew(gs: seq<Group>, e: CanonicalInterimHours)
    requires DistinctKeys(gs) && forall i :: 0 <= i < |gs| ==> gs[i].key != KeyOf(e)
    ensures Insert(gs, e) == gs + [Group(KeyOf(e), [e])]
  {
  }

  /** LINQ `GroupBy(x => new { x.Date, x.RateType })`, entry by entry. */
  function GroupBy(es: seq<CanonicalInterimHours>): (gs: seq<Group>)
    ensures DistinctKeys(gs)
    ensures forall i :: 0 <= i < |gs| ==> gs[i].members != []
    decreases |es|
  {
    if es == [] then [] else Insert(GroupBy(es[..|es| - 1]), es[|es| - 1])
  }

  lemma {:induction false} GroupBySnoc(es: seq<CanonicalInterimHours>, e: CanonicalInterimHours)
    ensures GroupBy(es + [e]) == Insert(GroupBy(es), e)
  {
    assert (es + [e])[..|es|] == es;
  }

  /** Each group holds exactly the entries with its key, in their original order. */
  lemma {:induction false} GroupByMembers(es: seq<CanonicalInterimHours>)
    ensures forall i :: 0 <= i < |GroupBy(es)| ==> GroupBy(es)[i].members == Members(es, GroupBy(es)[i].key)
    decreases |es|
  {
    if es != [] {
      var init := es[..|es| - 1];
      var e := es[|es| - 1];
      GroupByMembers(init);
      var gs := GroupBy(init);
      var r := GroupBy(es);
      forall i | 0 <= i < |r| ensures r[i].members == Members(es, r[i].key) {
        if i < |gs| {
          assert r[i].members == Members(init, gs[i].key) + (if gs[i].key == KeyOf(e) then [e] else []);
        } else {
          assert r[i] == Group(KeyOf(e), [e]);
          assert forall q :: 0 <= q < |init| ==> KeyOf(init[q]) != KeyOf(e) by {
            forall q | 0 <= q < |init| ensures KeyOf(init[q]) != KeyOf(e) {
              GroupByCovers(init, q);
            }
          }
          MembersNone(init, KeyOf(e));
        }
      }
    }
  }

  lemma {:induction false} MembersNone(es: seq<CanonicalInterimHours>, k: GroupKey)
    requires forall q :: 0 <= q < |es| ==> KeyOf(es[q]) != k
    ensures Members(es, k) == []
    decreases |es|
  {
    if es != [] {
      MembersNone(es[..|es| - 1], k);
    }
  }

  /** Every entry's key has its group. */
  lemma {:induction false} GroupByCovers(es: seq<CanonicalInterimHours>, q: nat)
    requires q < |es|
    ensures exists j :: 0 <= j < |GroupBy(es)| && GroupBy(es)[j].key == KeyOf(es[q])
    decreases |es|
  {
    var init := es[..|es| - 1];
    var gs := GroupBy(init);
    var r := GroupBy(es);
    if q < |init| {
      GroupByCovers(init, q);
      var j :| 0 <= j < |gs| && gs[j].key == KeyOf(init[q]);
      assert r[j].key == KeyOf(es[q]);
    } else if j :| 0 <= j < |gs| && gs[j].key == KeyOf(es[q]) {
      assert r[j].key == KeyOf(es[q]);
    } else {
      assert r[|gs|].key == KeyOf(es[q]);
    }
  }

  /** Some entry before position `q` has key `k`. */
  predicate SeenBefore(es: seq<CanonicalInterimHours>, k: GroupKey, q: int) {
    exists p :: 0 <= p < q && p < |es| && KeyOf(es[p]) == k
  }

  /** Every group's key is the key of some entry. */
  lemma {:induction false} GroupHasEntry(es: seq<CanonicalInterimHours>, j: nat)
    requires j < |GroupBy(es)|
    ensures exists p :: 0 <= p < |es| && KeyOf(es[p]) == GroupBy(es)[j].key
  {
    GroupByMembers(es);
    var m := GroupBy(es)[j].members;
    assert m[0] in es;
  }

  /** Groups come in the order their keys are first seen: wherever the key of
      a later group occurs, the key of every earlier group has occurred before. */
  lemma {:induction false} GroupByFirstSeen(es: seq<CanonicalInterimHours>, i: nat, j: nat, q: nat)
    requires i < j < |GroupBy(es)|
    requires q < |es| && KeyOf(es[q]) == GroupBy(es)[j].key
    ensures SeenBefore(es, GroupBy(es)[i].key, q)
    decreases |es|, 1
  {
    if j < |GroupBy(es[..|es| - 1])| {
      FirstSeenOldGroup(es, i, j, q);
    } else {
      FirstSeenNewGroup(es, i, j, q);
    }
  }

  /** Group `j` already existed before the last entry was filed. */
  lemma {:induction false} FirstSeenOldGroup(es: seq<CanonicalInterimHours>, i: nat, j: nat, q: nat)
    requires i < j < |GroupBy(es)|
    requires q < |es| && KeyOf(es[q]) == GroupBy(es)[j].key
    requires es != [] && j < |GroupBy(es[..|es| - 1])|
    ensures SeenBefore(es, GroupBy(es)[i].key, q)
    decreases |es|, 0
  {
    var init := es[..|es| - 1];
    var gs := GroupBy(init);
    var ki := gs[i].key;
    assert GroupBy(es)[i].key == ki && GroupBy(es)[j].key == gs[j].key;
    var q' := q;
    if q == |init| {
      // The last entry joins group j, which already has an earlier member.
      GroupHasEntry(init, j);
      q' :| 0 <= q' < |init| && KeyOf(init[q']) == gs[j].key;
    } else {
      assert KeyOf(init[q]) == gs[j].key;
    }
    GroupByFirstSeen(init, i, j, q');
    var p :| 0 <= p < q' && p < |init| && KeyOf(init[p]) == ki;
    assert es[p] == init[p];
  }

  /** Group `j` is the one the last entry opened, so `q` is the last position. */
  lemma {:induction false} FirstSeenNewGroup(es: seq<CanonicalInterimHours>, i: nat, j: nat, q: nat)
    requires i < j < |GroupBy(es)|
    requires q < |es| && KeyOf(es[q]) == GroupBy(es)[j].key
    requires es != [] && j >= |GroupBy(es[..|es| - 1])|
    ensures SeenBefore(es, GroupBy(es)[i].key, q)
  {
    var init := es[..|es| - 1];
    var e := es[|es| - 1];
    var gs := GroupBy(init);
    var ki := gs[i].key;
    assert GroupBy(es)[i].key == ki;
    assert GroupBy(es)[j] == Group(KeyOf(e), [e]);
    if q < |init| {
      assert es[q] == init[q];
      GroupByCovers(init, q);
      assert false;
    }
    GroupHasEntry(init, i);
    var p :| 0 <= p < |init| && KeyOf(init[p]) == ki;
    assert es[p] == init[p];
  }

  /** LINQ `Max(x => x.RevisionNumber)` on nullable values: the largest
      revision number present, ignoring nulls; null when all are null. */
  function MaxRevision(g: seq<CanonicalInterimHours>): (r: Option<int>)
    ensures r.None? <==> forall i :: 0 <= i < |g| ==> g[i].revisionNumber.None?
    ensures r.Some? ==> exists i :: 0 <= i < |g| && g[i].revisionNumber == r
    ensures r.Some? ==> forall i :: 0 <= i < |g| && g[i].revisionNumber.Some? ==> g[i].revisionNumber.value <= r.value
    decreases |g|
  {
    if g == [] then None
    else
      var init := g[..|g| - 1];
      assert forall i :: 0 <= i < |init| ==> init[i] == g[i];
      var m := MaxRevision(init);
      var x := g[|g| - 1].revisionNumber;
      if x.None? then m
      else if m.None? || m.value < x.value then x
      else m
  }

  /** LINQ `First(x => x.RevisionNumber == rev)` with lifted equality on nullable
      values (null equals null): the position of the first such entry. */
  function FirstWithRevision(g: seq<CanonicalInterimHours>, rev: Option<int>): (i: nat)
    requires exists j :: 0 <= j < |g| && g[j].revisionNumber == rev
    ensures i < |g| && g[i].revisionNumber == rev
    ensures forall j :: 0 <= j < i ==> g[j].revisionNumber != rev
    decreases |g|
  {
    if g[0].revisionNumber == rev then 0
    else
      assert exists j :: 0 <= j < |g[1..]| && g[1..][j].revisionNumber == rev by {
        var j :| 0 <= j < |g| && g[j].revisionNumber == rev;
        assert j != 0 && g[1..][j - 1] == g[j];
      }
      1 + FirstWithRevision(g[1..], rev)
  }

  /** LINQ `Sum(x => x.Duration)` on nullable values: a null duration adds
      nothing, and a sum over only nulls is zero (not null). */
  function SumDurations(g: seq<CanonicalInterimHours>): real
    decreases |g|
  {
    if g == [] then 0.0
    else SumDurations(g[..|g| - 1]) + g[|g| - 1].duration.GetOr(0.0)
  }

  /** One group's record: the earliest entry carrying the group's latest
      revision number, its duration replaced by the group's total. */
  function ReduceGroup(g: seq<CanonicalInterimHours>): (r: CanonicalInterimHours)
    requires g != []
    ensures exists i :: 0 <= i < |g| && r == g[i].(duration := Some(SumDurations(g)))
                         && forall j :: 0 <= j < i ==> g[j].revisionNumber != g[i].revisionNumber
    ensures r.revisionNumber.None? <==> forall i :: 0 <= i < |g| ==> g[i].revisionNumber.None?
    ensures r.revisionNumber.Some? ==>
              forall i :: 0 <= i < |g| && g[i].revisionNumber.Some? ==> g[i].revisionNumber.value <= r.revisionNumber.value
  {
    var latest := MaxRevision(g);
    assert exists j :: 0 <= j < |g| && g[j].revisionNumber == latest by {
      if latest.None? {
        assert g[0].revisionNumber == latest;
      }
    }
    var i := FirstWithRevision(g, latest);
    g[i].(duration := Some(SumDurations(g)))
  }

  /** The records of a sequence of groups, in group order. */
  function ReduceAll(gs: seq<Group>): (r: seq<CanonicalInterimHours>)
    requires forall i :: 0 <= i < |gs| ==> gs[i].members != []
    ensures |r| == |gs|
    ensures forall i :: 0 <= i < |gs| ==> r[i] == ReduceGroup(gs[i].members)
    decreases |gs|
  {
    if gs == [] then []
    else ReduceAll(gs[..|gs| - 1]) + [ReduceGroup(gs[|gs| - 1].members)]
  }

  /** Every member of a group carries the group's key. */
  lemma {:induction false} GroupByKeys(es: seq<CanonicalInterimHours>)
    ensures var gs := GroupBy(es);
            forall i :: 0 <= i < |gs| ==> forall j :: 0 <= j < |gs[i].members| ==> KeyOf(gs[i].members[j]) == gs[i].key
  {
    GroupByMembers(es);
  }

  /** The record of a group whose entries all share key `k` has key `k`. */
  lemma {:induction false} ReduceGroupKey(g: seq<CanonicalInterimHours>, k: GroupKey)
    requires g != []
    requires forall i :: 0 <= i < |g| ==> KeyOf(g[i]) == k
    ensures KeyOf(ReduceGroup(g)) == k
  {
    var r := ReduceGroup(g);
    var i :| 0 <= i < |g| && r == g[i].(duration := Some(SumDurations(g)))
             && forall j :: 0 <= j < i ==> g[j].revisionNumber != g[i].revisionNumber;
    assert KeyOf(r) == KeyOf(g[i]);
  }

  /** `GroupHoursByDateAndType`: one record per group, in group order. */
  function GroupHoursByDateAndType(es: seq<CanonicalInterimHours>): (r: seq<CanonicalInterimHours>)
    ensures |r| == |GroupBy(es)|
    ensures forall i :: 0 <= i < |r| ==> KeyOf(r[i]) == GroupBy(es)[i].key
  {
    var gs := GroupBy(es);
    GroupByKeys(es);
    assert forall i :: 0 <= i < |gs| ==> KeyOf(ReduceGroup(gs[i].members)) == gs[i].key by {
      forall i | 0 <= i < |gs| ensures KeyOf(ReduceGroup(gs[i].members)) == gs[i].key {
        ReduceGroupKey(gs[i].members, gs[i].key);
      }
    }
    ReduceAll(gs)
  }

  /** The key set of a sequence of entries. */
  ghost function KeySet(es: seq<CanonicalInterimHours>): set<GroupKey> {
    set q | 0 <= q < |es| :: KeyOf(es[q])
  }

  /** The records have pairwise distinct keys, and every key of the input has its record. */
  lemma {:induction false} GroupHoursKeys(es: seq<CanonicalInterimHours>)
    ensures var r := GroupHoursByDateAndType(es);
            && (forall i, j :: 0 <= i < j < |r| ==> KeyOf(r[i]) != KeyOf(r[j]))
            && (forall q :: 0 <= q < |es| ==> exists i :: 0 <= i < |r| && KeyOf(r[i]) == KeyOf(es[q]))
  {
    var r := GroupHoursByDateAndType(es);
    var gs := GroupBy(es);
    forall q | 0 <= q < |es|
      ensures exists i :: 0 <= i < |r| && KeyOf(r[i]) == KeyOf(es[q])
    {
      GroupByCovers(es, q);
      var j :| 0 <= j < |gs| && gs[j].key == KeyOf(es[q]);
      assert KeyOf(r[j]) == KeyOf(es[q]);
    }
  }

  /** Each record, stated against the input alone: it is the first input entry
      of its key to carry that key's latest revision, with the key's summed
      duration in place of its own. */
  lemma {:induction false} GroupHoursRecord(es: seq<CanonicalInterimHours>, i: nat)
    requires i < |GroupHoursByDateAndType(es)|
    ensures var x := GroupHoursByDateAndType(es)[i];
            var m := Members(es, KeyOf(x));
            && x.duration == Some(SumDurations(m))
            && LatestRevision(m, x.revisionNumber)
            && exists k :: 0 <= k < |m| && x == m[k].(duration := x.duration)
                           && forall j :: 0 <= j < k ==> m[j].revisionNumber != x.revisionNumber
  {
    var gs := GroupBy(es);
    GroupByMembers(es);
    var x := GroupHoursByDateAndType(es)[i];
    assert x == ReduceGroup(gs[i].members);
    assert gs[i].members == Members(es, KeyOf(x));
    ReducedRecord(gs[i].members);
  }

  /** The record of a group, stated through `LatestRevision`. */
  lemma {:induction false} ReducedRecord(g: seq<CanonicalInterimHours>)
    requires g != []
    ensures var x := ReduceGroup(g);
            && x.duration == Some(SumDurations(g))
            && LatestRevision(g, x.revisionNumber)
            && exists k :: 0 <= k < |g| && x == g[k].(duration := x.duration)
                           && forall j :: 0 <= j < k ==> g[j].revisionNumber != x.revisionNumber
  {
    var x := ReduceGroup(g);
    var k :| 0 <= k < |g| && x == g[k].(duration := Some(SumDurations(g)))
             && forall j :: 0 <= j < k ==> g[j].revisionNumber != g[k].revisionNumber;
    assert x.revisionNumber == g[k].revisionNumber;
  }

  /** `rev` is the latest revision among `g`: null exactly when all are null,
      otherwise the largest one present. */
  predicate LatestRevision(g: seq<CanonicalInterimHours>, rev: Option<int>) {
    && (rev.None? <==> forall i :: 0 <= i < |g| ==> g[i].revisionNumber.None?)
    && (rev.Some? ==> exists i :: 0 <= i < |g| && g[i].revisionNumber == rev)
    && (rev.Some? ==> forall i :: 0 <= i < |g| && g[i].revisionNumber.Some? ==> g[i].revisionNumber.value <= rev.value)
  }

  /** The number of records is the number of distinct `(Date, RateType)` keys. */
  lemma {:induction false} GroupHoursCount(es: seq<CanonicalInterimHours>)
    ensures |GroupHoursByDateAndType(es)| == |KeySet(es)|
  {
    var gs := GroupBy(es);
    GroupByMembers(es);
    var ks := set i | 0 <= i < |gs| :: gs[i].key;
    assert ks == KeySet(es) by {
      forall x | x in ks ensures x in KeySet(es) {
        var i :| 0 <= i < |gs| && gs[i].key == x;
        var m := gs[i].members;
        assert m == Members(es, x) && m != [];
        var q :| 0 <= q < |es| && es[q] == m[0];
      }
      forall x | x in KeySet(es) ensures x in ks {
        var q :| 0 <= q < |es| && KeyOf(es[q]) == x;
        GroupByCovers(es, q);
        var j :| 0 <= j < |gs| && gs[j].key == KeyOf(es[q]);
      }
    }
    DistinctKeysCount(gs);
  }
  lemma {:induction false} DistinctKeysCount(gs: seq<Group>)
    requires DistinctKeys(gs)
    ensures |set i | 0 <= i < |gs| :: gs[i].key| == |gs|
    decreases |gs|
  {
    if gs != [] {
      var init := gs[..|gs| - 1];
      DistinctKeysCount(init);
      var s := set i | 0 <= i < |gs| :: gs[i].key;
      var si := set i | 0 <= i < |init| :: init[i].key;
      assert s == si + {gs[|gs| - 1].key} by {
        forall x | x in s ensures x in si + {gs[|gs| - 1].key} {
          var i :| 0 <= i < |gs| && gs[i].key == x;
          if i < |init| { assert init[i].key == x; }
        }
        forall x | x in si ensures x in s {
          var i :| 0 <= i < |init| && init[i].key == x;
          assert gs[i].key == x;
        }
      }
      assert gs[|gs| - 1].key !in si;
    }
  }

  /** The summed duration of a sequence of groups. */
  function GroupsTotal(gs: seq<Group>): real
    decreases |gs|
  {
    if gs == [] then 0.0 else GroupsTotal(gs[..|gs| - 1]) + SumDurations(gs[|gs| - 1].members)
  }

  lemma {:induction false} GroupsTotalUpdate(gs: seq<Group>, j: nat, g: Group)
    requires j < |gs|
    ensures GroupsTotal(gs[j := g]) == GroupsTotal(gs) - SumDurations(gs[j].members) + SumDurations(g.members)
    decreases |gs|
  {
    var init := gs[..|gs| - 1];
    if j == |gs| - 1 {
      assert gs[j := g][..|gs| - 1] == init;
    } else {
      assert gs[j := g][..|gs| - 1] == init[j := g];
      GroupsTotalUpdate(init, j, g);
    }
  }

  lemma {:induction false} InsertTotal(gs: seq<Group>, e: CanonicalInterimHours)
    requires DistinctKeys(gs)
    ensures GroupsTotal(Insert(gs, e)) == GroupsTotal(gs) + e.duration.GetOr(0.0)
  {
    match GroupIndex(gs, KeyOf(e))
    case Some(j) =>
      var m := gs[j].members;
      GroupsTotalUpdate(gs, j, Group(gs[j].key, m + [e]));
      assert (m + [e])[..|m|] == m;
    case None =>
      assert Insert(gs, e) == gs + [Group(KeyOf(e), [e])];
      assert (gs + [Group(KeyOf(e), [e])])[..|gs|] == gs;
      assert [e][..0] == [];
      assert SumDurations([e]) == SumDurations([]) + e.duration.GetOr(0.0);
  }

  lemma {:induction false} GroupByTotal(es: seq<CanonicalInterimHours>)
    ensures GroupsTotal(GroupBy(es)) == SumDurations(es)
    decreases |es|
  {
    if es != [] {
      GroupByTotal(es[..|es| - 1]);
      InsertTotal(GroupBy(es[..|es| - 1]), es[|es| - 1]);
    }
  }

  lemma {:induction false} ReduceAllTotal(gs: seq<Group>)
    requires forall i :: 0 <= i < |gs| ==> gs[i].members != []
    ensures SumDurations(ReduceAll(gs)) == GroupsTotal(gs)
    decreases |gs|
  {
    if gs != [] {
      var init := gs[..|gs| - 1];
      ReduceAllTotal(init);
      assert ReduceAll(gs)[..|gs| - 1] == ReduceAll(init);
    }
  }

  /** Reduction moves durations between records but neither creates nor
      loses any: the records' total equals the entries' total. */
  lemma {:induction false} DurationConserved(es: seq<CanonicalInterimHours>)
    ensures SumDurations(GroupHoursByDateAndType(es)) == SumDurations(es)
  {
    GroupByTotal(es);
    ReduceAllTotal(GroupBy(es));
  }

  /** Entries that all share one key form a single group. */
  lemma {:induction false} GroupByOneKey(a: seq<CanonicalInterimHours>, k: GroupKey)
    requires a != [] && forall i :: 0 <= i < |a| ==> KeyOf(a[i]) == k
    ensures GroupBy(a) == [Group(k, a)]
    decreases |a|
  {
    var init := a[..|a| - 1];
    GroupBySnoc(init, a[|a| - 1]);
    assert init + [a[|a| - 1]] == a;
    if init == [] {
      InsertNew([], a[0]);
    } else {
      GroupByOneKey(init, k);
      InsertInto(GroupBy(init), a[|a| - 1], 0);
    }
  }

  /** A run of entries with one key followed by a run with another key forms
      two groups, in that order. */
  lemma {:induction false} GroupByTwoKeys(x: seq<CanonicalInterimHours>, n: nat, ka: GroupKey, kb: GroupKey)
    requires 0 < n < |x| && ka != kb
    requires forall i :: 0 <= i < n ==> KeyOf(x[i]) == ka
    requires forall i :: n <= i < |x| ==> KeyOf(x[i]) == kb
    ensures GroupBy(x) == [Group(ka, x[..n]), Group(kb, x[n..])]
    decreases |x|
  {
    if |x| == n + 1 {
      GroupByTwoKeysFirst(x, n, ka, kb);
    } else {
      var init := x[..|x| - 1];
      var e := x[|x| - 1];
      assert init[..n] == x[..n] && init[n..] + [e] == x[n..];
      GroupByTwoKeys(init, n, ka, kb);
      InsertInto(GroupBy(init), e, 1);
    }
  }

  /** An entry with a new key after a one-key run opens a second group. */
  lemma {:induction false} GroupByOneKeyThen(init: seq<CanonicalInterimHours>, e: CanonicalInterimHours, ka: GroupKey)
    requires init != [] && forall i :: 0 <= i < |init| ==> KeyOf(init[i]) == ka
    requires KeyOf(e) != ka
    ensures GroupBy(init + [e]) == [Group(ka, init), Group(KeyOf(e), [e])]
  {
    GroupByOneKey(init, ka);
    GroupBySnoc(init, e);
    InsertNew([Group(ka, init)], e);
  }

  /** The first entry with the second key opens the second group. */
  lemma {:induction false} GroupByTwoKeysFirst(x: seq<CanonicalInterimHours>, n: nat, ka: GroupKey, kb: GroupKey)
    requires 0 < n && |x| == n + 1 && ka != kb
    requires forall i :: 0 <= i < n ==> KeyOf(x[i]) == ka
    requires KeyOf(x[n]) == kb
    ensures GroupBy(x) == [Group(ka, x[..n]), Group(kb, x[n..])]
  {
    var init := x[..n];
    assert forall i :: 0 <= i < |init| ==> KeyOf(init[i]) == ka by {
      forall i | 0 <= i < |init| ensures KeyOf(init[i]) == ka {
        assert init[i] == x[i];
      }
    }
    var e := x[n];
    assert x == init + [e] && x[n..] == [e];
    GroupByOneKeyThen(init, e, ka);
  }

  lemma {:induction false} MaxOfThreeRevisions(g: seq<CanonicalInterimHours>)
    requires |g| == 3
    requires g[0].revisionNumber == Some(0) && g[1].revisionNumber == Some(1) && g[2].revisionNumber == Some(2)
    ensures MaxRevision(g) == Some(2)
  {
    assert g[..1][..0] == [] && g[..2][..1] == g[..1] && g[..2] == g[..|g| - 1];
    assert MaxRevision(g[..1]) == Some(0);
    assert MaxRevision(g[..2]) == Some(1);
  }

  lemma {:induction false} SumOfThree(g: seq<CanonicalInterimHours>)
    requires |g| == 3
    ensures SumDurations(g) == g[0].duration.GetOr(0.0) + g[1].duration.GetOr(0.0) + g[2].duration.GetOr(0.0)
  {
    assert g[..1][..0] == [] && g[..2][..1] == g[..1] && g[..2] == g[..|g| - 1];
    assert SumDurations(g[..1]) == g[0].duration.GetOr(0.0);
  }

  /** A group of three revisions numbered 0, 1 and 2 reduces to the last one,
      carrying the sum of the three durations. */
  lemma {:induction false} ThreeRevisions(g: seq<CanonicalInterimHours>)
    requires |g| == 3
    requires g[0].revisionNumber == Some(0) && g[1].revisionNumber == Some(1) && g[2].revisionNumber == Some(2)
    ensures ReduceGroup(g) == g[2].(duration := Some(SumDurations(g)))
  {
    MaxOfThreeRevisions(g);
  }

  /** An entry of the reconciliation example: job, consultant, rate and date
      fixed, so that only duration, revision and rate type vary. */
  function Sample(duration: real, revision: int, rateType: string): CanonicalInterimHours {
    CanonicalInterimHours(Some("1000"), "J-1", Some(50.0), "Consultant", Some(duration),
                          Some("2019-03-11"), None, Some(revision), Some(rateType))
  }

  /** The revisions of one rate type in the example. */
  function Revisions(rateType: string, d0: real, d1: real, d2: real): seq<CanonicalInterimHours> {
    [Sample(d0, 0, rateType), Sample(d1, 1, rateType), Sample(d2, 2, rateType)]
  }

  lemma {:induction false} ExampleRecord(rateType: string, d0: real, d1: real, d2: real)
    ensures ReduceGroup(Revisions(rateType, d0, d1, d2)) == Sample(d0 + d1 + d2, 2, rateType)
  {
    var g := Revisions(rateType, d0, d1, d2);
    ThreeRevisions(g);
    SumOfThree(g);
  }

  lemma {:induction false} ExampleGroups(ra: string, rb: string, a0: real, a1: real, a2: real, b0: real, b1: real, b2: real)
    requires ra != rb
    ensures var a := Revisions(ra, a0, a1, a2);
            var b := Revisions(rb, b0, b1, b2);
            GroupBy(a + b) == [Group(KeyOf(a[0]), a), Group(KeyOf(b[0]), b)]
  {
    var a := Revisions(ra, a0, a1, a2);
    var b := Revisions(rb, b0, b1, b2);
    var x := a + b;
    assert x[..3] == a && x[3..] == b;
    GroupByTwoKeys(x, 3, KeyOf(a[0]), KeyOf(b[0]));
  }

  /** Two rate types with three revisions each reduce to one record per rate
      type, at the last revision, carrying the sum of its durations. */
  lemma {:induction false} TwoRateTypes(ra: string, rb: string, a0: real, a1: real, a2: real, b0: real, b1: real, b2: real)
    requires ra != rb
    ensures GroupHoursByDateAndType(Revisions(ra, a0, a1, a2) + Revisions(rb, b0, b1, b2))
            == [Sample(a0 + a1 + a2, 2, ra), Sample(b0 + b1 + b2, 2, rb)]
  {
    ExampleRecord(ra, a0, a1, a2);
    ExampleRecord(rb, b0, b1, b2);
    ExampleGroups(ra, rb, a0, a1, a2, b0, b1, b2);
  }

  /** Three revisions per rate type (8, -8, 5 and 4, -4, 3) collapse to one
      record per rate type, at revision 2, with durations 5 and 3. */
  lemma {:induction false} RevisionSumExample()
    ensures GroupHoursByDateAndType(Revisions("RTH100", 8.0, -8.0, 5.0) + Revisions("RTH150", 4.0, -4.0, 3.0))
            == [Sample(5.0, 2, "RTH100"), Sample(3.0, 2, "RTH150")]
  {
    assert "RTH100" != "RTH150" by { assert "RTH100"[4] != "RTH150"[4]; }
    TwoRateTypes("RTH100", "RTH150", 8.0, -8.0, 5.0, 4.0, -4.0, 3.0);
  }
}
