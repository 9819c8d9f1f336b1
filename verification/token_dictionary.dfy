/**
  `JTokenDictionary`: a multimap from tokens to lists of strings, in key
  insertion order. Keys are compared by the token's own equality, which is
  reference identity for objects and arrays and value equality for scalar
  values, so a key is an opaque type `K` with equality.
 */
module JTokenDictionary {
  import opened Wrappers
  import Seqs

  datatype Entry<K> = Entry(key: K, values: seq<string>)

  function Keys<K>(d: seq<Entry<K>>): (ks: seq<K>)
    ensures |ks| == |d| && forall i :: 0 <= i < |d| ==> ks[i] == d[i].key
  {
    seq(|d|, i requires 0 <= i < |d| => d[i].key)
  }

  /** No key occurs twice. */
  predicate Valid<K(==)>(d: seq<Entry<K>>) {
    forall i, j :: 0 <= i < j < |d| ==> d[i].key != d[j].key
  }

  /** The position of key `k`. */
  function Find<K(==)>(d: seq<Entry<K>>, k: K): (r: Option<nat>)
    ensures r.Some? ==> r.value < |d| && d[r.value].key == k
    ensures r.None? <==> k !in Keys(d)
    decreases |d|
  {
    if d == [] then None
    else if d[|d| - 1].key == k then Some(|d| - 1)
    else
      var r := Find(d[..|d| - 1], k);
      assert Keys(d) == Keys(d[..|d| - 1]) + [d[|d| - 1].key];
      r
  }

  /** The `KeyNotFoundException` of the dictionary indexer. */
  datatype DictionaryFault = KeyNotFound

  /** `GetValues`: the list of a key that has been added; any other key throws. */
  function GetValues<K(==)>(d: seq<Entry<K>>, k: K): (r: Result<seq<string>, DictionaryFault>)
    ensures r.Failure? <==> k !in Keys(d)
    ensures r.Success? ==> exists i :: 0 <= i < |d| && d[i].key == k && d[i].values == r.value
  {
    match Find(d, k)
    case None => Failure(KeyNotFound)
    case Some(i) => Success(d[i].values)
  }

  /** In a valid dictionary the entry at position `i` is the one `GetValues` reads. */
  lemma {:induction false} GetValuesAt<K>(d: seq<Entry<K>>, i: nat)
    requires Valid(d) && i < |d|
    ensures GetValues(d, d[i].key) == Success(d[i].values)
  {
    assert Keys(d)[i] == d[i].key;
  }

  /** `Add`: a new key gets an empty list at the end of the dictionary, then the
      value is appended to the key's list. */
  function Add<K(==)>(d: seq<Entry<K>>, k: K, v: string): (r: seq<Entry<K>>)
    requires Valid(d)
    ensures Valid(r)
    ensures Keys(r) == if k in Keys(d) then Keys(d) else Keys(d) + [k]
    ensures k in Keys(d) ==> GetValues(r, k) == Success(GetValues(d, k).value + [v])
    ensures k !in Keys(d) ==> GetValues(r, k) == Success([v])
    ensures forall q :: q in Keys(d) && q != k ==> GetValues(r, q) == GetValues(d, q)
  {
    match Find(d, k)
    case None =>
      var r := d + [Entry(k, [v])];
      assert Keys(r) == Keys(d) + [k];
      assert forall q :: q in Keys(d) ==> GetValues(r, q) == GetValues(d, q) by {
        forall q | q in Keys(d) ensures GetValues(r, q) == GetValues(d, q) {
          assert r[..|r| - 1] == d;
          assert Find(r, q) == Find(d, q);
        }
      }
      assert Find(r, k) == Some(|d|);
      assert k !in Keys(d);
      assert GetValues(r, k) == Success([v]);
      r
    case Some(i) =>
      var r := d[i := Entry(k, d[i].values + [v])];
      assert Keys(r) == Keys(d);
      assert forall q :: q in Keys(d) && q != k ==> GetValues(r, q) == GetValues(d, q) by {
        forall q | q in Keys(d) && q != k ensures GetValues(r, q) == GetValues(d, q) {
          var a := Find(r, q).value;
          var b := Find(d, q).value;
          assert r[a].key == d[a].key;
          assert a == b;
        }
      }
      assert Find(r, k) == Some(i);
      assert GetValues(r, k) == Success(d[i].values + [v]);
      r
  }

  // ---------------------------------------------------------------------
  // RemoveDuplicateValues
  // ---------------------------------------------------------------------

  /** Every value of every list, in dictionary order (the `AddRange` loop). */
  function AllValues<K>(d: seq<Entry<K>>): seq<string>
    decreases |d|
  {
    if d == [] then [] else AllValues(d[..|d| - 1]) + d[|d| - 1].values
  }

  /** The position of the first occurrence of `x`. */
  function IndexOf(s: seq<string>, x: string): (i: nat)
    requires x in s
    ensures i < |s| && s[i] == x && x !in s[..i]
    decreases |s|
  {
    if s[0] == x then 0
    else
      var t := s[1..];
      assert x in t by { assert s == [s[0]] + t; }
      var j := IndexOf(t, x);
      assert s[..j + 1] == [s[0]] + t[..j];
      j + 1
  }

  /** `List.Remove`: drops the first occurrence of `x`, if any. */
  function RemoveFirst(s: seq<string>, x: string): (r: seq<string>)
    ensures x in s ==> r == s[..IndexOf(s, x)] + s[IndexOf(s, x) + 1..]
    ensures x in s ==> multiset(r) == multiset(s) - multiset{x}
    ensures x !in s ==> r == s
    decreases |s|
  {
    if s == [] then []
    else if s[0] == x then
      RemoveHead(s, x);
      s[1..]
    else
      var rt := RemoveFirst(s[1..], x);
      RemoveCons(s, x, rt);
      [s[0]] + rt
  }

  /** `x` in front is its first occurrence. */
  lemma {:induction false} RemoveHead(s: seq<string>, x: string)
    requires s != [] && s[0] == x
    ensures x in s && IndexOf(s, x) == 0
    ensures s[1..] == s[..IndexOf(s, x)] + s[IndexOf(s, x) + 1..]
    ensures multiset(s[1..]) == multiset(s) - multiset{x}
  {
    assert IndexOf(s, x) == 0;
    assert s[..0] == [];
    SpliceMultiset(s, 0);
  }

  /** Removal behind a different head: what holds of the tail holds of the
      whole list with the head put back. */
  lemma {:induction false} RemoveCons(s: seq<string>, x: string, rt: seq<string>)
    requires s != [] && s[0] != x
    requires x in s[1..] ==> rt == s[1..][..IndexOf(s[1..], x)] + s[1..][IndexOf(s[1..], x) + 1..]
    requires x !in s[1..] ==> rt == s[1..]
    ensures x in s ==> [s[0]] + rt == s[..IndexOf(s, x)] + s[IndexOf(s, x) + 1..]
    ensures x in s ==> multiset([s[0]] + rt) == multiset(s) - multiset{x}
    ensures x !in s ==> [s[0]] + rt == s
  {
    var t := s[1..];
    assert s == [s[0]] + t;
    if x in t {
      ConsSplice(s, x, rt);
      SpliceMultiset(s, IndexOf(s, x));
    }
  }

  /** Deleting position `i` removes one copy of `s[i]`. */
  lemma {:induction false} SpliceMultiset(s: seq<string>, i: nat)
    requires i < |s|
    ensures multiset(s[..i] + s[i + 1..]) == multiset(s) - multiset{s[i]}
  {
    assert s == s[..i] + [s[i]] + s[i + 1..];
  }

  /** The first occurrence of `x` after a different head is one position further on. */
  lemma {:induction false} ConsSplice(s: seq<string>, x: string, rt: seq<string>)
    requires s != [] && s[0] != x && x in s[1..]
    requires rt == s[1..][..IndexOf(s[1..], x)] + s[1..][IndexOf(s[1..], x) + 1..]
    ensures x in s && [s[0]] + rt == s[..IndexOf(s, x)] + s[IndexOf(s, x) + 1..]
  {
    var t := s[1..];
    var j := IndexOf(t, x);
    assert s == [s[0]] + t;
    assert IndexOf(s, x) == j + 1;
    assert s[..j + 1] == [s[0]] + t[..j];
    assert s[j + 2..] == t[j + 1..];
  }

  /** Each value of `ds` loses its first occurrence in `s`; everything else
      stays, in order. An independent reading of the removal loop, by positions. */
  function DropFirsts(s: seq<string>, ds: set<string>): (r: seq<string>)
    decreases |s|
  {
    if s == [] then []
    else if s[0] in ds then DropFirsts(s[1..], ds - {s[0]})
    else [s[0]] + DropFirsts(s[1..], ds)
  }

  /** A value that does not occur changes nothing. */
  lemma {:induction false} DropFirstsAbsent(s: seq<string>, ds: set<string>, y: string)
    requires y !in s
    ensures DropFirsts(s, ds + {y}) == DropFirsts(s, ds)
    decreases |s|
  {
    if s != [] {
      assert s[0] != y && y !in s[1..];
      if s[0] in ds {
        assert ds + {y} - {s[0]} == (ds - {s[0]}) + {y};
        DropFirstsAbsent(s[1..], ds - {s[0]}, y);
      } else {
        DropFirstsAbsent(s[1..], ds, y);
      }
    }
  }

  /** Removing the first occurrence of one more value extends the dropped set. */
  lemma {:induction false} DropFirstsRemove(s: seq<string>, ds: set<string>, y: string)
    requires y !in ds && y in s
    ensures RemoveFirst(DropFirsts(s, ds), y) == DropFirsts(s, ds + {y})
    decreases |s|
  {
    var t := s[1..];
    assert s == [s[0]] + t;
    if s[0] == y {
      assert ds + {y} - {y} == ds;
    } else if s[0] in ds {
      assert y in t;
      assert ds + {y} - {s[0]} == (ds - {s[0]}) + {y};
      DropFirstsRemove(t, ds - {s[0]}, y);
    } else {
      assert y in t;
      DropFirstsRemove(t, ds, y);
    }
  }

  /** Removing one element keeps the order of the rest. */
  lemma {:induction false} RemoveFirstOrder(s: seq<string>, x: string)
    ensures Seqs.Subsequence(RemoveFirst(s, x), s)
    decreases |s|
  {
    if s != [] {
      if s[0] == x {
        Seqs.SubsequenceReflexive(s[1..]);
        Seqs.SubsequenceDropHead(s[1..], s);
      } else {
        RemoveFirstOrder(s[1..], x);
        assert ([s[0]] + RemoveFirst(s[1..], x))[1..] == RemoveFirst(s[1..], x);
      }
    }
  }

  /** No value occurs twice. */
  predicate NoRepeats(s: seq<string>) {
    forall i, j :: 0 <= i < j < |s| ==> s[i] != s[j]
  }

  /** The distinct values of `s`, in order of first occurrence (`GroupBy(x => x)`). */
  function Distinct(s: seq<string>): (r: seq<string>)
    ensures forall x :: x in r <==> x in s
    ensures NoRepeats(r)
    decreases |s|
  {
    if s == [] then []
    else
      var r := Distinct(s[..|s| - 1]);
      assert s == s[..|s| - 1] + [s[|s| - 1]];
      if s[|s| - 1] in r then r else r + [s[|s| - 1]]
  }

  /** The values occurring more than once, each listed once, in order of first occurrence. */
  function Duplicates(s: seq<string>): (r: seq<string>)
    ensures forall x :: x in r <==> multiset(s)[x] > 1
    ensures NoRepeats(r)
  {
    var ds := Distinct(s);
    var p := RepeatedIn(s);
    var r := Seqs.Filter(ds, p);
    DistinctFilter(ds, p);
    assert forall x :: x in r <==> multiset(s)[x] > 1 by {
      forall x ensures x in r <==> multiset(s)[x] > 1 {
        if multiset(s)[x] > 1 {
          assert x in s;
          var i :| 0 <= i < |ds| && ds[i] == x;
        }
        if x in r {
          var i :| 0 <= i < |r| && r[i] == x;
        }
      }
    }
    r
  }

  /** `g.Count() > 1` for the group of `x`. */
  function RepeatedIn(s: seq<string>): string -> bool {
    (x: string) => Seqs.Count(s, x) > 1
  }

  lemma {:induction false} DistinctFilter(s: seq<string>, p: string -> bool)
    requires NoRepeats(s)
    ensures NoRepeats(Seqs.Filter(s, p))
    decreases |s|
  {
    if s != [] {
      var init := s[..|s| - 1];
      DistinctFilter(init, p);
      var fi := Seqs.Filter(init, p);
      var last := s[|s| - 1];
      assert last !in init by {
        forall i | 0 <= i < |init| ensures init[i] != last {
          assert init[i] == s[i];
        }
      }
      assert NoRepeats(init) by {
        forall i, j | 0 <= i < j < |init| ensures init[i] != init[j] {
          assert init[i] == s[i] && init[j] == s[j];
        }
      }
      assert last !in fi;
      var r := Seqs.Filter(s, p);
      assert r == fi + (if p(last) then [last] else []);
      forall i, j | 0 <= i < j < |r| ensures r[i] != r[j] {
        if j == |fi| {
          assert r[i] == fi[i] && r[j] == last;
        } else {
          assert r[i] == fi[i] && r[j] == fi[j];
        }
      }
    }
  }

  /** The inner loop of `RemoveDuplicateValues`: for each duplicate value in
      turn, a list holding it loses its first occurrence. */
  function RemoveEach(values: seq<string>, dups: seq<string>): (r: seq<string>)
    decreases |dups|
  {
    if dups == [] then values
    else
      var rest := RemoveEach(values, dups[..|dups| - 1]);
      var x := dups[|dups| - 1];
      if x in rest then RemoveFirst(rest, x) else rest
  }

  /** With distinct duplicates, each one present in the list is removed exactly
      once and nothing else changes; the survivors keep their order, and the
      occurrence removed is the first. */
  lemma {:induction false} RemoveEachSpec(values: seq<string>, dups: seq<string>)
    requires NoRepeats(dups)
    ensures forall x :: multiset(RemoveEach(values, dups))[x]
                        == multiset(values)[x] - (if x in dups && x in values then 1 else 0)
    ensures Seqs.Subsequence(RemoveEach(values, dups), values)
    ensures RemoveEach(values, dups) == DropFirsts(values, Elements(dups))
  {
    RemoveEachCounts(values, dups);
    RemoveEachFirsts(values, dups);
  }

  /** The counting and ordering half of `RemoveEachSpec`. */
  lemma {:induction false} RemoveEachCounts(values: seq<string>, dups: seq<string>)
    requires NoRepeats(dups)
    ensures forall x :: multiset(RemoveEach(values, dups))[x]
                        == multiset(values)[x] - (if x in dups && x in values then 1 else 0)
    ensures Seqs.Subsequence(RemoveEach(values, dups), values)
    decreases |dups|
  {
    if dups == [] {
      Seqs.SubsequenceReflexive(values);
    } else {
      var init := dups[..|dups| - 1];
      var y := dups[|dups| - 1];
      LastOfDistinct(dups);
      RemoveEachCounts(values, init);
      var rest := RemoveEach(values, init);
      assert y in rest <==> y in values by {
        assert multiset(rest)[y] == multiset(values)[y];
      }
      if y in rest {
        RemoveFirstOrder(rest, y);
        Seqs.SubsequenceTransitive(RemoveFirst(rest, y), rest, values);
      }
    }
  }

  /** The elements of a sequence, as a set. */
  function Elements(s: seq<string>): set<string> {
    set i | 0 <= i < |s| :: s[i]
  }

  /** With distinct duplicates, the loop drops exactly the first occurrence of
      each duplicate the list holds. */
  lemma {:induction false} RemoveEachFirsts(values: seq<string>, dups: seq<string>)
    requires NoRepeats(dups)
    ensures RemoveEach(values, dups) == DropFirsts(values, Elements(dups))
    decreases |dups|
  {
    if dups == [] {
      assert Elements(dups) == {};
      DropFirstsNone(values);
    } else {
      var init := dups[..|dups| - 1];
      var y := dups[|dups| - 1];
      LastOfDistinct(dups);
      RemoveEachFirsts(values, init);
      var rest := RemoveEach(values, init);
      assert RemoveEach(values, dups) == RemoveFirst(rest, y);
      if y in values {
        DropFirstsRemove(values, Elements(init), y);
      } else {
        RemoveEachCounts(values, init);
        assert y !in rest by { assert multiset(rest)[y] == 0; }
        DropFirstsAbsent(values, Elements(init), y);
      }
    }
  }

  /** Splitting a list of distinct values before its last one. */
  lemma {:induction false} LastOfDistinct(dups: seq<string>)
    requires NoRepeats(dups) && dups != []
    ensures NoRepeats(dups[..|dups| - 1])
    ensures dups[|dups| - 1] !in dups[..|dups| - 1]
    ensures dups[|dups| - 1] !in Elements(dups[..|dups| - 1])
    ensures forall x :: x in dups <==> x in dups[..|dups| - 1] || x == dups[|dups| - 1]
    ensures Elements(dups) == Elements(dups[..|dups| - 1]) + {dups[|dups| - 1]}
  {
    var init := dups[..|dups| - 1];
    var y := dups[|dups| - 1];
    forall i, j | 0 <= i < j < |init| ensures init[i] != init[j] {
      assert init[i] == dups[i] && init[j] == dups[j];
    }
    forall i | 0 <= i < |init| ensures init[i] != y {
      assert init[i] == dups[i];
    }
    assert dups == init + [y];
  }

  lemma {:induction false} DropFirstsNone(s: seq<string>)
    ensures DropFirsts(s, {}) == s
    decreases |s|
  {
    if s != [] {
      DropFirstsNone(s[1..]);
      assert s == [s[0]] + s[1..];
    }
  }

  /** `RemoveDuplicateValues`: every value that occurs more than once across
      the whole dictionary loses its first occurrence in each list holding it. */
  function RemoveDuplicateValues<K>(d: seq<Entry<K>>): (r: seq<Entry<K>>)
    ensures |r| == |d|
    ensures forall i :: 0 <= i < |d| ==> r[i].key == d[i].key
  {
    var dups := Duplicates(AllValues(d));
    seq(|d|, i requires 0 <= i < |d| => Entry(d[i].key, RemoveEach(d[i].values, dups)))
  }

  /** The keys and their order do not change; each list loses one occurrence of
      each value it holds that occurs more than once in the whole dictionary,
      keeps every other occurrence, and keeps its order. */
  lemma {:induction false} RemoveDuplicateValuesSpec<K>(d: seq<Entry<K>>, i: nat, x: string)
    requires i < |d|
    ensures Keys(RemoveDuplicateValues(d)) == Keys(d)
    ensures multiset(RemoveDuplicateValues(d)[i].values)[x]
            == multiset(d[i].values)[x] - (if multiset(AllValues(d))[x] > 1 && x in d[i].values then 1 else 0)
    ensures Seqs.Subsequence(RemoveDuplicateValues(d)[i].values, d[i].values)
    ensures RemoveDuplicateValues(d)[i].values == DropFirsts(d[i].values, Repeated(AllValues(d)))
  {
    var dups := Duplicates(AllValues(d));
    RemoveEachSpec(d[i].values, dups);
    DuplicatesRepeated(AllValues(d));
  }

  lemma {:induction false} DuplicatesRepeated(s: seq<string>)
    ensures Elements(Duplicates(s)) == Repeated(s)
  {
    var ds := Duplicates(s);
    forall x ensures x in Elements(ds) <==> x in Repeated(s) {
      if x in Elements(ds) {
        var i :| 0 <= i < |ds| && ds[i] == x;
        assert x in s;
        var k :| 0 <= k < |s| && s[k] == x;
      }
      if x in Repeated(s) {
        var k :| 0 <= k < |s| && multiset(s)[s[k]] > 1 && s[k] == x;
        assert x in ds;
        var i :| 0 <= i < |ds| && ds[i] == x;
      }
    }
  }

  /** The values occurring more than once in `s`. */
  function Repeated(s: seq<string>): set<string> {
    set i | 0 <= i < |s| && multiset(s)[s[i]] > 1 :: s[i]
  }

  /** A value that occurs only once in the whole dictionary is never removed. */
  lemma {:induction false} UniqueValueKept<K>(d: seq<Entry<K>>, i: nat, x: string)
    requires i < |d| && multiset(AllValues(d))[x] <= 1
    ensures multiset(RemoveDuplicateValues(d)[i].values)[x] == multiset(d[i].values)[x]
  {
    RemoveDuplicateValuesSpec(d, i, x);
  }

  /** `Add` on a key already present extends that key's list in place. */
  lemma {:induction false} AddExisting<K>(d: seq<Entry<K>>, i: nat, v: string)
    requires Valid(d) && i < |d|
    ensures Add(d, d[i].key, v) == d[i := Entry(d[i].key, d[i].values + [v])]
  {
    var f := Find(d, d[i].key);
    assert f.Some? by { assert Keys(d)[i] == d[i].key; }
    assert f.value == i;
  }

  /** `Add` on a new key appends an entry. */
  lemma {:induction false} AddNew<K>(d: seq<Entry<K>>, k: K, v: string)
    requires Valid(d) && k !in Keys(d)
    ensures Add(d, k, v) == d + [Entry(k, [v])]
  {
  }

  // ---------------------------------------------------------------------
  // The dictionary of the unit test: "a", "b", "c" under one empty object and
  // "c", "d" under another. Each fact is proved for arbitrary values and keys
  // and then instantiated.
  // ---------------------------------------------------------------------

  lemma {:induction false} AddToSingle<K>(k: K, vs: seq<string>, v: string)
    ensures Add([Entry(k, vs)], k, v) == [Entry(k, vs + [v])]
  {
    AddExisting([Entry(k, vs)], 0, v);
  }

  lemma {:induction false} AddTwiceToSingle<K>(k: K, vs: seq<string>, v1: string, v2: string)
    ensures Add(Add([Entry(k, vs)], k, v1), k, v2) == [Entry(k, vs + [v1, v2])]
  {
    AddToSingle(k, vs, v1);
    AddToSingle(k, vs + [v1], v2);
    assert vs + [v1] + [v2] == vs + [v1, v2];
  }

  lemma {:induction false} BuildLeft<K>(left: K, a: string, b: string, c: string)
    ensures Add(Add(Add([], left, a), left, b), left, c) == [Entry(left, [a, b, c])]
  {
    AddNew([], left, a);
    AddTwiceToSingle(left, [a], b, c);
    assert [a] + [b, c] == [a, b, c];
  }

  lemma {:induction false} BuildRight<K>(left: K, right: K, va: seq<string>, c: string, d: string)
    requires left != right
    ensures Add(Add([Entry(left, va)], right, c), right, d) == [Entry(left, va), Entry(right, [c, d])]
  {
    var d3 := [Entry(left, va)];
    assert Keys(d3) == [left];
    AddNew(d3, right, c);
    var d4 := [Entry(left, va), Entry(right, [c])];
    AddExisting(d4, 1, d);
    assert [c] + [d] == [c, d];
  }

  lemma {:induction false} BuildRule<K>(left: K, right: K, a: string, b: string, c: string, d: string)
    requires left != right
    ensures Add(Add(Add(Add(Add([], left, a), left, b), left, c), right, c), right, d)
            == [Entry(left, [a, b, c]), Entry(right, [c, d])]
  {
    BuildLeft(left, a, b, c);
    BuildRight(left, right, [a, b, c], c, d);
  }

  /** Two distinct keys give two entries, in the order they were first added. */
  lemma {:induction false} ExampleBuild<K>(left: K, right: K)
    requires left != right
    ensures Add(Add(Add(Add(Add([], left, "a"), left, "b"), left, "c"), right, "c"), right, "d")
            == [Entry(left, ["a", "b", "c"]), Entry(right, ["c", "d"])]
  {
    BuildRule(left, right, "a", "b", "c", "d");
  }

  lemma {:induction false} DistinctFive(a: string, b: string, c: string, d: string)
    requires a != b && a != c && a != d && b != c && b != d && c != d
    ensures Distinct([a, b, c, c, d]) == [a, b, c, d]
  {
    var s := [a, b, c, c, d];
    assert s[..1] == [a];
    assert [a][..0] == [];
    assert Distinct([a]) == [a];
    assert s[..2] == [a, b];
    assert [a, b][..1] == [a];
    assert Distinct([a, b]) == [a, b];
    assert s[..3] == [a, b, c];
    assert [a, b, c][..2] == [a, b];
    assert Distinct([a, b, c]) == [a, b, c];
    assert s[..4] == [a, b, c, c];
    assert [a, b, c, c][..3] == [a, b, c];
    assert Distinct([a, b, c, c]) == [a, b, c];
  }

  lemma {:induction false} RepeatedFive(a: string, b: string, c: string, d: string)
    requires a != b && a != c && a != d && b != c && b != d && c != d
    ensures var p := RepeatedIn([a, b, c, c, d]); !p(a) && !p(b) && p(c) && !p(d)
  {
    assert multiset([a, b, c, c, d]) == multiset{a, b, c, c, d};
  }

  lemma {:induction false} FilterFour(a: string, b: string, c: string, d: string, p: string -> bool)
    requires !p(a) && !p(b) && p(c) && !p(d)
    ensures Seqs.Filter([a, b, c, d], p) == [c]
  {
    assert [a][..0] == [];
    assert Seqs.Filter([a], p) == [];
    assert [a, b][..1] == [a];
    assert Seqs.Filter([a, b], p) == [];
    assert [a, b, c][..2] == [a, b];
    assert Seqs.Filter([a, b, c], p) == [c];
    assert [a, b, c, d][..3] == [a, b, c];
  }

  lemma {:induction false} DuplicatesRule(a: string, b: string, c: string, d: string)
    requires a != b && a != c && a != d && b != c && b != d && c != d
    ensures Duplicates([a, b, c, c, d]) == [c]
  {
    DistinctFive(a, b, c, d);
    RepeatedFive(a, b, c, d);
    FilterFour(a, b, c, d, RepeatedIn([a, b, c, c, d]));
  }

  lemma {:induction false} AllValuesTwo<K>(e0: Entry<K>, e1: Entry<K>)
    ensures AllValues([e0, e1]) == e0.values + e1.values
  {
    assert [e0, e1][..1] == [e0];
    assert [e0][..0] == [];
    assert AllValues([e0]) == [] + e0.values;
    assert [] + e0.values == e0.values;
  }

  lemma {:induction false} RemoveEachRule(a: string, b: string, c: string, d: string)
    requires a != c && b != c && c != d
    ensures RemoveEach([a, b, c], [c]) == [a, b]
    ensures RemoveEach([c, d], [c]) == [d]
  {
    assert [c][..0] == [];
    assert [a, b, c][1..] == [b, c] && [b, c][1..] == [c] && [c][1..] == [];
    assert RemoveFirst([c], c) == [];
    assert RemoveFirst([b, c], c) == [b];
    assert RemoveFirst([a, b, c], c) == [a, b];
  }

  lemma {:induction false} RemoveDuplicateValuesTwo<K>(e0: Entry<K>, e1: Entry<K>, dups: seq<string>)
    requires Duplicates(AllValues([e0, e1])) == dups
    ensures RemoveDuplicateValues([e0, e1])
            == [Entry(e0.key, RemoveEach(e0.values, dups)), Entry(e1.key, RemoveEach(e1.values, dups))]
  {
  }

  lemma {:induction false} ExampleValuesRule<K>(left: K, right: K, a: string, b: string, c: string, d: string)
    requires a != b && a != c && a != d && b != c && b != d && c != d
    ensures Duplicates(AllValues([Entry(left, [a, b, c]), Entry(right, [c, d])])) == [c]
  {
    AllValuesTwo(Entry(left, [a, b, c]), Entry(right, [c, d]));
    assert [a, b, c] + [c, d] == [a, b, c, c, d];
    DuplicatesRule(a, b, c, d);
  }

  lemma {:induction false} RemovalRule<K>(left: K, right: K, a: string, b: string, c: string, d: string)
    requires a != b && a != c && a != d && b != c && b != d && c != d
    ensures RemoveDuplicateValues([Entry(left, [a, b, c]), Entry(right, [c, d])])
            == [Entry(left, [a, b]), Entry(right, [d])]
  {
    ExampleValuesRule(left, right, a, b, c, d);
    RemoveDuplicateValuesTwo(Entry(left, [a, b, c]), Entry(right, [c, d]), [c]);
    RemoveEachRule(a, b, c, d);
  }

  /** {a, b, c} and {c, d} become {a, b} and {d}: "c" is the only value that
      occurs twice, and each list loses it. */
  lemma {:induction false} ExampleRemoval<K>(left: K, right: K)
    ensures RemoveDuplicateValues([Entry(left, ["a", "b", "c"]), Entry(right, ["c", "d"])])
            == [Entry(left, ["a", "b"]), Entry(right, ["d"])]
  {
    RemovalRule(left, right, "a", "b", "c", "d");
  }

  lemma {:induction false} TwoEntriesLookup<K>(left: K, right: K, va: seq<string>, vb: seq<string>)
    requires left != right
    ensures var r := [Entry(left, va), Entry(right, vb)];
            GetValues(r, left) == Success(va) && GetValues(r, right) == Success(vb)
  {
    var r := [Entry(left, va), Entry(right, vb)];
    GetValuesAt(r, 0);
    GetValuesAt(r, 1);
  }

  /** The assertions of the unit test on the dictionary it builds: after the
      removal the first key holds two values, the second one, and neither
      holds "c". */
  lemma {:induction false} ExampleUnitTest<K>(left: K, right: K)
    requires left != right
    ensures var r := RemoveDuplicateValues([Entry(left, ["a", "b", "c"]), Entry(right, ["c", "d"])]);
            && GetValues(r, left).Success? && GetValues(r, right).Success?
            && |GetValues(r, left).value| == 2 && |GetValues(r, right).value| == 1
            && "c" !in GetValues(r, left).value && "c" !in GetValues(r, right).value
  {
    ExampleRemoval(left, right);
    TwoEntriesLookup(left, right, ["a", "b"], ["d"]);
  }
}
