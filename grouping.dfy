/**
  Group-by-and-sum over keyed counts, as a pandas group-by with a sum computes it:
  one group per distinct key, holding the sum of that key's amounts. Groups
  appear in the order their key was first seen.
*/
module Grouping {

  /** One input row reduced to its grouping key and the amount summed. */
  datatype Entry<K> = Entry(key: K, amount: nat)

  /** One output group. */
  datatype Group<K> = Group(key: K, total: nat)

  ghost predicate DistinctKeys<K>(gs: seq<Group<K>>) {
    forall i, j :: 0 <= i < j < |gs| ==> gs[i].key != gs[j].key
  }

  ghost predicate HasKey<K>(gs: seq<Group<K>>, k: K) {
    exists i :: 0 <= i < |gs| && gs[i].key == k
  }

  ghost predicate EntryHasKey<K>(es: seq<Entry<K>>, k: K) {
    exists i :: 0 <= i < |es| && es[i].key == k
  }

  /** Sum of the amounts whose key satisfies `p`. */
  function SumWhere<K>(es: seq<Entry<K>>, p: K -> bool): nat {
    if es == [] then 0
    else SumWhere(es[..|es| - 1], p) + (if p(es[|es| - 1].key) then es[|es| - 1].amount else 0)
  }

  /** Sum of the group totals whose key satisfies `p`. */
  function GroupsSumWhere<K>(gs: seq<Group<K>>, p: K -> bool): nat {
    if gs == [] then 0
    else (if p(gs[0].key) then gs[0].total else 0) + GroupsSumWhere(gs[1..], p)
  }

  /** Sum of all group totals. */
  function SumTotals<K>(gs: seq<Group<K>>): nat {
    if gs == [] then 0 else gs[0].total + SumTotals(gs[1..])
  }

  /** Adds `n` to the group of `k`, or appends a new group for `k`. */
  function AddTo<K(==)>(gs: seq<Group<K>>, k: K, n: nat): (r: seq<Group<K>>)
    ensures |r| == |gs| || |r| == |gs| + 1
  {
    if gs == [] then [Group(k, n)]
    else if gs[0].key == k then [gs[0].(total := gs[0].total + n)] + gs[1..]
    else [gs[0]] + AddTo(gs[1..], k, n)
  }

  lemma {:induction false} AddToKeys<K>(gs: seq<Group<K>>, k: K, n: nat, x: K)
    ensures HasKey(AddTo(gs, k, n), x) <==> x == k || HasKey(gs, x)
  {
    var r := AddTo(gs, k, n);
    if gs == [] {
      assert r[0].key == k;
    } else if gs[0].key == k {
      assert r[0].key == k;
      if HasKey(gs, x) {
        var i :| 0 <= i < |gs| && gs[i].key == x;
        assert r[i].key == x;
      }
      if HasKey(r, x) {
        var i :| 0 <= i < |r| && r[i].key == x;
        assert gs[i].key == x;
      }
    } else {
      var rest := AddTo(gs[1..], k, n);
      AddToKeys(gs[1..], k, n, x);
      assert r == [gs[0]] + rest;
      assert r[0].key == gs[0].key;
      if x != gs[0].key {
        if HasKey(gs, x) {
          var i :| 0 <= i < |gs| && gs[i].key == x;
          assert gs[1..][i - 1].key == x;
          var j :| 0 <= j < |rest| && rest[j].key == x;
          assert r[j + 1].key == x;
        }
        if HasKey(r, x) {
          var i :| 0 <= i < |r| && r[i].key == x;
          assert rest[i - 1].key == x;
          if x != k {
            var j :| 0 <= j < |gs[1..]| && gs[1..][j].key == x;
            assert gs[j + 1].key == x;
          }
        }
        if x == k {
          var j :| 0 <= j < |rest| && rest[j].key == x;
          assert r[j + 1].key == x;
        }
      } else {
        assert gs[0].key == x;
      }
    }
  }

  lemma DistinctKeysTail<K>(gs: seq<Group<K>>)
    requires DistinctKeys(gs) && gs != []
    ensures DistinctKeys(gs[1..])
  {
    forall i, j | 0 <= i < j < |gs[1..]| ensures gs[1..][i].key != gs[1..][j].key {
      assert gs[1..][i] == gs[i + 1] && gs[1..][j] == gs[j + 1];
    }
  }

  lemma {:induction false} AddToDistinct<K>(gs: seq<Group<K>>, k: K, n: nat)
    requires DistinctKeys(gs)
    ensures DistinctKeys(AddTo(gs, k, n))
  {
    if gs != [] && gs[0].key != k {
      DistinctKeysTail(gs);
      AddToDistinct(gs[1..], k, n);
      var rest := AddTo(gs[1..], k, n);
      var r := [gs[0]] + rest;
      forall j | 0 < j < |r| ensures r[0].key != r[j].key {
        assert rest[j - 1].key == r[j].key;
        AddToKeys(gs[1..], k, n, r[j].key);
        if HasKey(gs[1..], r[j].key) {
          var m :| 0 <= m < |gs[1..]| && gs[1..][m].key == r[j].key;
          assert gs[m + 1].key == r[j].key;
        }
      }
      forall i, j | 0 < i < j < |r| ensures r[i].key != r[j].key {
        assert r[i] == rest[i - 1] && r[j] == rest[j - 1];
      }
    }
  }

  /** Group-by with a sum: one group per distinct key, in first-seen order. */
  function GroupSum<K(==)>(es: seq<Entry<K>>): (r: seq<Group<K>>)
    ensures DistinctKeys(r)
    ensures |r| <= |es|
  {
    if es == [] then []
    else
      var gs := GroupSum(es[..|es| - 1]);
      AddToDistinct(gs, es[|es| - 1].key, es[|es| - 1].amount);
      AddTo(gs, es[|es| - 1].key, es[|es| - 1].amount)
  }

  /** Adding `n` to the group of `k` adds `n` to every selective sum that selects `k`, and nothing to the others. */
  lemma {:induction false} AddToSumWhere<K>(gs: seq<Group<K>>, k: K, n: nat, p: K -> bool)
    ensures GroupsSumWhere(AddTo(gs, k, n), p) == GroupsSumWhere(gs, p) + (if p(k) then n else 0)
  {
    if gs == [] {
      assert GroupsSumWhere([Group(k, n)], p) == (if p(k) then n else 0) + GroupsSumWhere([Group(k, n)][1..], p);
    } else if gs[0].key == k {
      var r := AddTo(gs, k, n);
      assert r[1..] == gs[1..];
    } else {
      AddToSumWhere(gs[1..], k, n, p);
      var r := AddTo(gs, k, n);
      assert r[1..] == AddTo(gs[1..], k, n);
    }
  }

  /** Grouping loses no amount: summing the groups is summing the entries. */
  lemma {:induction false} GroupSumWhere<K>(es: seq<Entry<K>>, p: K -> bool)
    ensures GroupsSumWhere(GroupSum(es), p) == SumWhere(es, p)
  {
    if es != [] {
      GroupSumWhere(es[..|es| - 1], p);
      AddToSumWhere(GroupSum(es[..|es| - 1]), es[|es| - 1].key, es[|es| - 1].amount, p);
    }
  }

  /** A key has a group exactly when some entry carries it. */
  lemma {:induction false} GroupSumKeys<K>(es: seq<Entry<K>>, k: K)
    ensures HasKey(GroupSum(es), k) <==> EntryHasKey(es, k)
  {
    if es != [] {
      var init := es[..|es| - 1];
      GroupSumKeys(init, k);
      AddToKeys(GroupSum(init), es[|es| - 1].key, es[|es| - 1].amount, k);
      if EntryHasKey(es, k) && k != es[|es| - 1].key {
        var i :| 0 <= i < |es| && es[i].key == k;
        assert init[i].key == k;
      }
      if EntryHasKey(init, k) {
        var i :| 0 <= i < |init| && init[i].key == k;
        assert es[i].key == k;
      }
      assert es[|es| - 1].key == es[|es| - 1].key;
    }
  }

  lemma {:induction false} SumTotalsIsSumWhere<K>(gs: seq<Group<K>>, p: K -> bool)
    requires forall k :: p(k)
    ensures SumTotals(gs) == GroupsSumWhere(gs, p)
  {
    if gs != [] {
      SumTotalsIsSumWhere(gs[1..], p);
    }
  }

  lemma {:induction false} SumWhereExt<K>(es: seq<Entry<K>>, p: K -> bool, q: K -> bool)
    requires forall k :: p(k) == q(k)
    ensures SumWhere(es, p) == SumWhere(es, q)
  {
    if es != [] {
      SumWhereExt(es[..|es| - 1], p, q);
    }
  }

  lemma {:induction false} SumWhereMono<K>(es: seq<Entry<K>>, p: K -> bool, q: K -> bool)
    requires forall k :: p(k) ==> q(k)
    ensures SumWhere(es, p) <= SumWhere(es, q)
  {
    if es != [] {
      SumWhereMono(es[..|es| - 1], p, q);
    }
  }

  lemma {:induction false} GroupsSumWhereLast<K>(gs: seq<Group<K>>, p: K -> bool)
    requires gs != []
    ensures GroupsSumWhere(gs, p)
         == GroupsSumWhere(gs[..|gs| - 1], p) + (if p(gs[|gs| - 1].key) then gs[|gs| - 1].total else 0)
  {
    if |gs| > 1 {
      GroupsSumWhereLast(gs[1..], p);
      assert gs[1..][..|gs[1..]| - 1] == gs[..|gs| - 1][1..];
    }
  }

  /** The groups as entries keyed by `f` of their key, ready to be grouped again. */
  function Regroup<K, L>(gs: seq<Group<K>>, f: K -> L): (r: seq<Entry<L>>)
    ensures |r| == |gs|
  {
    seq(|gs|, i requires 0 <= i < |gs| => Entry(f(gs[i].key), gs[i].total))
  }

  /** Re-keying groups keeps every amount: summing by `p` on the new key is summing by `p . f`. */
  lemma {:induction false} RegroupSumWhere<K, L>(gs: seq<Group<K>>, f: K -> L, p: L -> bool, q: K -> bool)
    requires forall k :: q(k) == p(f(k))
    ensures SumWhere(Regroup(gs, f), p) == GroupsSumWhere(gs, q)
  {
    if gs != [] {
      var init := gs[..|gs| - 1];
      assert Regroup(gs, f)[..|gs| - 1] == Regroup(init, f);
      RegroupSumWhere(init, f, p, q);
      GroupsSumWhereLast(gs, q);
    }
  }

  /** With distinct keys, the groups matching `k` are exactly one group. */
  lemma {:induction false} TotalOfKey<K>(gs: seq<Group<K>>, i: nat, k: K)
    requires DistinctKeys(gs) && i < |gs| && gs[i].key == k
    ensures GroupsSumWhere(gs, x => x == k) == gs[i].total
  {
    DistinctKeysTail(gs);
    if i == 0 {
      NoTotalOfKey(gs[1..], k);
    } else {
      TotalOfKey(gs[1..], i - 1, k);
    }
  }

  lemma {:induction false} NoTotalOfKey<K>(gs: seq<Group<K>>, k: K)
    requires !HasKey(gs, k)
    ensures GroupsSumWhere(gs, x => x == k) == 0
  {
    if gs != [] {
      assert gs[0].key != k;
      forall i | 0 <= i < |gs[1..]| ensures gs[1..][i].key != k {
        assert gs[1..][i] == gs[i + 1];
      }
      NoTotalOfKey(gs[1..], k);
    }
  }

  // ---------------------------------------------------------------------------
  // Grouping the groups again by a coarser key, as grouping on one level of the index does.

  /** An entry's coarser key has a group after regrouping. */
  lemma RegroupKeysTo<K, L>(es: seq<Entry<K>>, f: K -> L, i: nat, x: L)
    requires i < |es| && f(es[i].key) == x
    ensures HasKey(GroupSum(Regroup(GroupSum(es), f)), x)
  {
    var gs := GroupSum(es);
    var r := Regroup(gs, f);
    assert EntryHasKey(es, es[i].key);
    GroupSumKeys(es, es[i].key);
    var j :| 0 <= j < |gs| && gs[j].key == es[i].key;
    assert r[j].key == x;
    GroupSumKeys(r, x);
  }

  /** A coarser key has a group exactly when some entry maps to it. */
  lemma RegroupKeys<K, L>(es: seq<Entry<K>>, f: K -> L, x: L)
    ensures HasKey(GroupSum(Regroup(GroupSum(es), f)), x)
        <==> exists i :: 0 <= i < |es| && f(es[i].key) == x
  {
    var gs := GroupSum(es);
    var r := Regroup(gs, f);
    GroupSumKeys(r, x);
    if EntryHasKey(r, x) {
      var j :| 0 <= j < |r| && r[j].key == x;
      assert HasKey(gs, gs[j].key);
      GroupSumKeys(es, gs[j].key);
      var i :| 0 <= i < |es| && es[i].key == gs[j].key;
      assert f(es[i].key) == x;
    }
    if exists i :: 0 <= i < |es| && f(es[i].key) == x {
      var i :| 0 <= i < |es| && f(es[i].key) == x;
      RegroupKeysTo(es, f, i, x);
    }
  }

  /** The total of a coarser group is the sum of the entries mapping to its key. */
  lemma RegroupTotal<K, L>(es: seq<Entry<K>>, f: K -> L, i: nat, x: L, q: K -> bool)
    requires i < |GroupSum(Regroup(GroupSum(es), f))|
    requires GroupSum(Regroup(GroupSum(es), f))[i].key == x
    requires forall k :: q(k) == (f(k) == x)
    ensures GroupSum(Regroup(GroupSum(es), f))[i].total == SumWhere(es, q)
  {
    var gs := GroupSum(es);
    var r := Regroup(gs, f);
    TotalOfKey(GroupSum(r), i, x);
    GroupSumWhere(r, y => y == x);
    RegroupSumWhere(gs, f, y => y == x, q);
    GroupSumWhere(es, q);
  }

  /** Regrouping keeps the grand total. */
  lemma RegroupSumTotals<K, L>(gs: seq<Group<K>>, f: K -> L)
    ensures SumTotals(GroupSum(Regroup(gs, f))) == SumTotals(gs)
  {
    var r := Regroup(gs, f);
    SumTotalsIsSumWhere(GroupSum(r), _ => true);
    GroupSumWhere(r, _ => true);
    RegroupSumWhere(gs, f, _ => true, _ => true);
    SumTotalsIsSumWhere(gs, _ => true);
  }

  /** Grouping yields no group only when there is no entry. */
  lemma GroupSumNonEmpty<K>(es: seq<Entry<K>>)
    ensures GroupSum(es) == [] <==> es == []
  {
    if es != [] {
      assert EntryHasKey(es, es[0].key);
      GroupSumKeys(es, es[0].key);
    }
  }
}
