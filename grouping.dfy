/**
  Grouped counts as the task analysis builds them with
  `.values(field).annotate(count=Count('id')).order_by('-count')[:n]`:
  one row per distinct value with the number of records holding it, the rows
  ordered by descending count, and the first `n` of them kept.
 */
module Grouping {

  /** Number of positions of `keys` that hold `k`. */
  function Occurrences(keys: seq<string>, k: string): nat {
    if keys == [] then 0
    else (if keys[0] == k then 1 else 0) + Occurrences(keys[1..], k)
  }

  lemma {:induction false} OccurrencesPositive(keys: seq<string>, k: string)
    ensures Occurrences(keys, k) > 0 <==> k in keys
  {
    if keys != [] {
      OccurrencesPositive(keys[1..], k);
    }
  }

  /** Occurrences add up over a concatenation. */
  lemma {:induction false} OccurrencesAppend(a: seq<string>, b: seq<string>, k: string)
    ensures Occurrences(a + b, k) == Occurrences(a, k) + Occurrences(b, k)
  {
    if a != [] {
      OccurrencesAppend(a[1..], b, k);
      assert (a + b)[0] == a[0];
      assert (a + b)[1..] == a[1..] + b;
    } else {
      assert a + b == b;
    }
  }

  predicate NoDuplicates(s: seq<string>) {
    forall i, j :: 0 <= i < j < |s| ==> s[i] != s[j]
  }

  /** The distinct values of `keys`. */
  function Distinct(keys: seq<string>): (r: seq<string>)
    ensures forall k :: k in r <==> k in keys
    ensures NoDuplicates(r)
    ensures |r| <= |keys|
  {
    if keys == [] then []
    else if keys[0] in keys[1..] then Distinct(keys[1..])
    else [keys[0]] + Distinct(keys[1..])
  }

  /** One row of a grouped count. */
  datatype Group = Group(key: string, count: nat)

  function KeysOf(gs: seq<Group>): seq<string> {
    seq(|gs|, i requires 0 <= i < |gs| => gs[i].key)
  }

  /** Every row counts its own key correctly in `keys`. */
  predicate CountsOf(gs: seq<Group>, keys: seq<string>) {
    forall g :: g in gs ==> g.count == Occurrences(keys, g.key) && g.count > 0
  }

  /** One row per distinct value of `keys`, with its number of occurrences. */
  function GroupCounts(keys: seq<string>): (r: seq<Group>)
    ensures CountsOf(r, keys)
    ensures NoDuplicates(KeysOf(r))
    ensures forall k :: k in keys <==> Group(k, Occurrences(keys, k)) in r
    ensures |r| == |Distinct(keys)| && |r| <= |keys|
  {
    var d := Distinct(keys);
    var r := seq(|d|, i requires 0 <= i < |d| => Group(d[i], Occurrences(keys, d[i])));
    forall k ensures Occurrences(keys, k) > 0 <==> k in keys {
      OccurrencesPositive(keys, k);
    }
    assert forall i :: 0 <= i < |r| ==> KeysOf(r)[i] == d[i];
    assert forall k :: k in d ==> Group(k, Occurrences(keys, k)) in r by {
      forall k | k in d ensures Group(k, Occurrences(keys, k)) in r {
        var i :| 0 <= i < |d| && d[i] == k;
        assert r[i] == Group(k, Occurrences(keys, k));
      }
    }
    r
  }

  predicate SortedByCountDesc(gs: seq<Group>) {
    forall i, j :: 0 <= i < j < |gs| ==> gs[i].count >= gs[j].count
  }

  /** Inserts `g` into a descending sequence before the first row with a smaller count. */
  function InsertByCount(g: Group, gs: seq<Group>): seq<Group> {
    if gs == [] || gs[0].count < g.count then [g] + gs
    else [gs[0]] + InsertByCount(g, gs[1..])
  }

  /** Insertion adds exactly `g`. */
  lemma {:induction false} InsertByCountPermutes(g: Group, gs: seq<Group>)
    ensures multiset(InsertByCount(g, gs)) == multiset(gs) + multiset{g}
  {
    if !(gs == [] || gs[0].count < g.count) {
      InsertByCountPermutes(g, gs[1..]);
      assert gs == [gs[0]] + gs[1..];
    }
  }

  /** Insertion into a descending sequence keeps it descending; its head is `g` or the old head. */
  lemma {:induction false} InsertByCountSorted(g: Group, gs: seq<Group>)
    requires SortedByCountDesc(gs)
    ensures var r := InsertByCount(g, gs);
      |r| == |gs| + 1 && (r[0] == g || (gs != [] && r[0] == gs[0])) && SortedByCountDesc(r)
  {
    if !(gs == [] || gs[0].count < g.count) {
      InsertByCountSorted(g, gs[1..]);
      var rest := InsertByCount(g, gs[1..]);
      var r := [gs[0]] + rest;
      assert gs[0].count >= rest[0].count;
      forall i, j | 0 <= i < j < |r| ensures r[i].count >= r[j].count {
        assert r[j] == rest[j - 1];
        if i > 0 {
          assert r[i] == rest[i - 1];
        } else {
          assert rest[0].count >= rest[j - 1].count;
        }
      }
    }
  }

  /** `order_by('-count')` by insertion. */
  function SortByCountDesc(gs: seq<Group>): seq<Group> {
    if gs == [] then [] else InsertByCount(gs[0], SortByCountDesc(gs[1..]))
  }

  /** Sorting yields a descending permutation of the rows. */
  lemma {:induction false} SortByCountDescSpec(gs: seq<Group>)
    ensures SortedByCountDesc(SortByCountDesc(gs))
    ensures multiset(SortByCountDesc(gs)) == multiset(gs)
  {
    if gs != [] {
      SortByCountDescSpec(gs[1..]);
      InsertByCountSorted(gs[0], SortByCountDesc(gs[1..]));
      InsertByCountPermutes(gs[0], SortByCountDesc(gs[1..]));
      assert gs == [gs[0]] + gs[1..];
    }
  }

  /** The grouped counts of `keys`, by descending count, at most `n` rows. */
  function TopGroups(keys: seq<string>, n: nat): seq<Group> {
    var sorted := SortByCountDesc(GroupCounts(keys));
    sorted[..if |sorted| < n then |sorted| else n]
  }

  /**
    The top rows are `n` of the distinct values of `keys`, or all of them when
    there are fewer, ordered by descending count, each counting a distinct
    value of `keys` exactly; and every value of `keys` left out occurs no more
    often than any row that was kept.
   */
  lemma {:induction false} TopGroupsSpec(keys: seq<string>, n: nat)
    ensures |TopGroups(keys, n)| == if |Distinct(keys)| < n then |Distinct(keys)| else n
    ensures SortedByCountDesc(TopGroups(keys, n))
    ensures CountsOf(TopGroups(keys, n), keys) && NoDuplicates(KeysOf(TopGroups(keys, n)))
    ensures forall k :: k in keys && k !in KeysOf(TopGroups(keys, n)) ==>
              forall g :: g in TopGroups(keys, n) ==> Occurrences(keys, k) <= g.count
  {
    var all := GroupCounts(keys);
    var sorted := SortByCountDesc(all);
    var m := if |sorted| < n then |sorted| else n;
    SortByCountDescSpec(all);
    assert |sorted| == |all| by {
      assert |multiset(sorted)| == |multiset(all)|;
    }
    PermutedGroups(all, sorted, keys);
    forall k | k in keys && k !in KeysOf(sorted[..m])
      ensures forall g :: g in sorted[..m] ==> Occurrences(keys, k) <= g.count
    {
      assert Group(k, Occurrences(keys, k)) in multiset(sorted);
      LeftOutBelowKept(sorted, m, Group(k, Occurrences(keys, k)));
    }
    PrefixGroups(sorted, m, keys);
  }

  /** A prefix of sorted, correct rows with distinct keys is again all of these. */
  lemma PrefixGroups(s: seq<Group>, m: nat, keys: seq<string>)
    requires m <= |s| && SortedByCountDesc(s) && CountsOf(s, keys) && NoDuplicates(KeysOf(s))
    ensures SortedByCountDesc(s[..m]) && CountsOf(s[..m], keys) && NoDuplicates(KeysOf(s[..m]))
  {
    assert forall i :: 0 <= i < m ==> KeysOf(s[..m])[i] == KeysOf(s)[i];
  }

  /** In a descending sequence, a row whose key is not among the first `m` counts no more than any of them. */
  lemma LeftOutBelowKept(s: seq<Group>, m: nat, x: Group)
    requires m <= |s| && SortedByCountDesc(s)
    requires x in s && x.key !in KeysOf(s[..m])
    ensures forall g :: g in s[..m] ==> x.count <= g.count
  {
    var j :| 0 <= j < |s| && s[j] == x;
    assert forall i :: 0 <= i < m ==> KeysOf(s[..m])[i] == s[i].key;
    assert m <= j;
  }

  /** With room for every distinct value, every value of `keys` has its row among the top rows. */
  lemma AllGroupsKept(keys: seq<string>, n: nat, k: string)
    requires |Distinct(keys)| <= n && k in keys
    ensures Group(k, Occurrences(keys, k)) in TopGroups(keys, n)
  {
    var all := GroupCounts(keys);
    var sorted := SortByCountDesc(all);
    SortByCountDescSpec(all);
    assert |sorted| <= n by {
      assert |multiset(sorted)| == |multiset(all)|;
    }
    assert Group(k, Occurrences(keys, k)) in multiset(sorted);
  }

  /** A permutation of correct rows with distinct keys again has correct rows with distinct keys. */
  lemma {:induction false} PermutedGroups(a: seq<Group>, b: seq<Group>, keys: seq<string>)
    requires CountsOf(a, keys) && NoDuplicates(KeysOf(a))
    requires multiset(a) == multiset(b)
    ensures CountsOf(b, keys) && NoDuplicates(KeysOf(b))
  {
    forall g | g in b ensures g in a {
      assert g in multiset(b);
    }
    forall i, j | 0 <= i < j < |b| ensures KeysOf(b)[i] != KeysOf(b)[j] {
      GroupsDistinct(a, b[i]);
      DistinctPositions(b, i, j);
    }
  }

  /** A row set with distinct keys holds each row at most once. */
  lemma {:induction false} GroupsDistinct(gs: seq<Group>, g: Group)
    requires NoDuplicates(KeysOf(gs))
    ensures multiset(gs)[g] <= 1
  {
    if gs != [] {
      assert gs == [gs[0]] + gs[1..];
      var tail := gs[1..];
      assert forall j :: 0 <= j < |tail| ==> KeysOf(tail)[j] == KeysOf(gs)[j + 1];
      GroupsDistinct(tail, g);
      forall j | 0 <= j < |tail| ensures tail[j] != gs[0] {
        assert KeysOf(gs)[0] != KeysOf(gs)[j + 1];
      }
      assert gs[0] !in tail;
    }
  }

  /** A value held at most once sits at no two positions. */
  lemma {:induction false} DistinctPositions<T>(s: seq<T>, i: nat, j: nat)
    requires i < j < |s| && multiset(s)[s[i]] <= 1
    ensures s[i] != s[j]
  {
    assert s == s[..j] + [s[j]] + s[j + 1..];
    assert s[i] in s[..j];
    assert multiset(s) == multiset(s[..j]) + multiset{s[j]} + multiset(s[j + 1..]);
  }
}
