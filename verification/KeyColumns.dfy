/** Lists of column numbers, as convertToWithoutRowidTable (build.c) rearranges them. */
module KeyColumns {
  import opened Sequences

  ghost predicate SameColumns(s: seq<int>, t: seq<int>) {
    forall x :: x in s <==> x in t
  }

  /** Where x first occurs. */
  function First(s: seq<int>, x: int): (k: nat)
    requires x in s
    ensures k < |s| && s[k] == x && forall j :: 0 <= j < k ==> s[j] != x
  {
    if s[0] == x then 0 else First(s[1..], x) + 1
  }

  /** The first n columns without the repeats. */
  function Distinct(s: seq<int>, n: nat): seq<int>
    requires n <= |s|
  {
    if n == 0 then []
    else
      var d := Distinct(s, n - 1);
      if s[n - 1] in d then d else d + [s[n - 1]]
  }

  /** Removing repeats keeps each column once, in the order of first occurrence. */
  lemma {:induction false} DistinctInOrder(s: seq<int>, n: nat)
    requires n <= |s|
    ensures var d := Distinct(s, n);
      && |d| <= n && (0 < n ==> 0 < |d|) && NoRepeats(d) && SameColumns(d, s[..n])
      && forall p, q :: 0 <= p < q < |d| ==> d[p] in s && d[q] in s && First(s, d[p]) < First(s, d[q])
  {
    if 0 < n {
      DistinctInOrder(s, n - 1);
      var c, x := Distinct(s, n - 1), s[n - 1];
      assert s[..n] == s[..n - 1] + [x];
      forall p | 0 <= p < |c| && x !in c ensures c[p] in s && x in s && First(s, c[p]) < First(s, x) {
        assert c[p] in c;
        FirstIsLeast(s, c[p], n - 1);
        FirstIsNotBefore(s, x, n - 1);
      }
    }
  }

  lemma FirstIsLeast(s: seq<int>, x: int, n: nat)
    requires n <= |s| && x in s[..n]
    ensures x in s && First(s, x) < n
  {
    var j :| 0 <= j < n && s[j] == x;
  }

  lemma FirstIsNotBefore(s: seq<int>, x: int, n: nat)
    requires n <= |s| && x in s && x !in s[..n]
    ensures n <= First(s, x)
  {
    assert forall j :: 0 <= j < n ==> s[j] in s[..n];
  }

  /** The first n columns of pk that are not in key. */
  function Missing(key: seq<int>, pk: seq<int>, n: nat): seq<int>
    requires n <= |pk|
  {
    if n == 0 then []
    else Missing(key, pk, n - 1) + (if pk[n - 1] in key then [] else [pk[n - 1]])
  }

  lemma {:induction false} MissingGrows(key: seq<int>, pk: seq<int>, m: nat, n: nat)
    requires m <= n <= |pk|
    ensures Missing(key, pk, m) <= Missing(key, pk, n)
    decreases n
  {
    if m < n {
      MissingGrows(key, pk, m, n - 1);
    }
  }

  /** A unique index with the missing key columns added has its own columns first, then just those
      of the primary key that it lacked, each once. */
  lemma {:induction false} ExtendedHasBoth(key: seq<int>, pk: seq<int>, n: nat)
    requires n <= |pk| && NoRepeats(pk)
    ensures var e := Missing(key, pk, n);
      && NoRepeats(e) && (NoRepeats(key) ==> NoRepeats(key + e))
      && forall x :: x in e <==> x in pk[..n] && x !in key
  {
    if 0 < n {
      ExtendedHasBoth(key, pk, n - 1);
      var e, x := Missing(key, pk, n - 1), pk[n - 1];
      assert pk[..n] == pk[..n - 1] + [x];
      assert e + [] == e && key + (e + [x]) == (key + e) + [x];
      assert x !in e;
    }
  }

  /** The columns of e come in the order of s. */
  predicate InOrderOf(e: seq<int>, s: seq<int>) {
    forall p, q :: 0 <= p < q < |e| ==> Before(s, e[p], e[q])
  }

  predicate Before(s: seq<int>, x: int, y: int) {
    x in s && y in s && First(s, x) < First(s, y)
  }

  /** They come in the order of the primary key. */
  lemma {:induction false} MissingInOrder(key: seq<int>, pk: seq<int>, n: nat)
    requires n <= |pk| && NoRepeats(pk)
    ensures InOrderOf(Missing(key, pk, n), pk)
  {
    if 0 < n {
      MissingInOrder(key, pk, n - 1);
      var c, e := Missing(key, pk, n - 1), Missing(key, pk, n);
      assert pk[n - 1] in pk;
      forall p, q | 0 <= p < q < |e| ensures Before(pk, e[p], e[q]) {
        assert e[p] == c[p] && c[p] in c;
        MissingBefore(key, pk, n - 1, c[p]);
        assert e[q] == if q < |c| then c[q] else pk[n - 1];
      }
    }
  }

  lemma MissingBefore(key: seq<int>, pk: seq<int>, n: nat, x: int)
    requires n < |pk| && NoRepeats(pk) && x in Missing(key, pk, n)
    ensures x in pk && First(pk, x) < n == First(pk, pk[n])
  {
    ExtendedHasBoth(key, pk, n);
    FirstIsLeast(pk, x, n);
    assert pk[n] in pk;
    var k := First(pk, pk[n]);
    assert !(n < k);
    assert !(k < n);
  }

  /** key followed by those of the columns 0..n-1 that are not there yet. */
  function WithOthers(key: seq<int>, n: nat): seq<int> {
    if n == 0 then key
    else
      var w := WithOthers(key, n - 1);
      if n - 1 in w then w else w + [n - 1]
  }

  lemma {:induction false} OthersGrow(key: seq<int>, m: nat, n: nat)
    requires m <= n
    ensures WithOthers(key, m) <= WithOthers(key, n)
    decreases n
  {
    if m < n {
      OthersGrow(key, m, n - 1);
    }
  }

  lemma {:induction false} OthersComplete(key: seq<int>, n: nat)
    requires NoRepeats(key)
    ensures var w := WithOthers(key, n);
      && key <= w && NoRepeats(w)
      && (forall x :: x in w <==> x in key || 0 <= x < n)
      && (forall p, q :: |key| <= p < q < |w| ==> w[p] < w[q])
      && forall p :: |key| <= p < |w| ==> w[p] < n
  {
    if 0 < n {
      OthersComplete(key, n - 1);
    }
  }

  /** Columns of a table with n columns. */
  predicate InTable(s: seq<int>, n: nat) {
    forall x <- s :: 0 <= x < n
  }

  /** No repeats among n columns: at most n of them, and exactly n only if none is missing. */
  lemma {:induction false} Pigeons(s: seq<int>, n: nat)
    requires NoRepeats(s) && InTable(s, n)
    ensures |s| <= n
    ensures (forall x :: 0 <= x < n ==> x in s) <==> |s| == n
    decreases n
  {
    assert forall x :: x in s ==> 0 <= x < n;
    assert |s| == 0 || s[0] in s;
    if n == 0 {
    } else if n - 1 in s {
      var k := First(s, n - 1);
      var t := s[..k] + s[k + 1..];
      assert forall x :: x in s <==> x in t || x == n - 1;
      Pigeons(t, n - 1);
    } else {
      Pigeons(s, n - 1);
    }
  }

  function AllColumns(n: nat): (s: seq<int>)
    ensures |s| == n && (forall k :: 0 <= k < n ==> s[k] == k) && NoRepeats(s)
    ensures forall x :: x in s <==> 0 <= x < n
  {
    if n == 0 then [] else AllColumns(n - 1) + [n - 1]
  }

  /** A primary key without repeats, completed with the other columns, is a permutation of all the
      columns of the table, in which the added ones are in ascending order. */
  lemma OthersPermute(key: seq<int>, n: nat)
    requires NoRepeats(key) && InTable(key, n)
    ensures var w := WithOthers(key, n);
      && |key| <= n == |w| && key <= w && multiset(w) == multiset(AllColumns(n))
      && forall p, q :: |key| <= p < q < n ==> w[p] < w[q]
  {
    var w := WithOthers(key, n);
    OthersComplete(key, n);
    Pigeons(key, n);
    Pigeons(w, n);
    forall x ensures multiset(w)[x] == multiset(AllColumns(n))[x] {
      OnceEach(w, x);
      OnceEach(AllColumns(n), x);
    }
  }

  lemma {:induction false} OnceEach(s: seq<int>, x: int)
    requires NoRepeats(s)
    ensures multiset(s)[x] == if x in s then 1 else 0
  {
    if 0 < |s| {
      var k := |s| - 1;
      assert s == s[..k] + [s[k]];
      OnceEach(s[..k], x);
    }
  }

  /** What the conversion leaves: the primary key index is a permutation of the columns of the table
      that starts with the key freed of repeats, and any other index, which starts with its own key,
      ends up with every primary key column and with no column twice, unless its own key has one. */
  lemma Converted(key: seq<int>, n: nat, other: seq<int>)
    requires InTable(key, n)
    ensures var d := Distinct(key, |key|);
      && NoRepeats(d) && SameColumns(d, key)
      && d <= WithOthers(d, n) && multiset(WithOthers(d, n)) == multiset(AllColumns(n))
    ensures var e := other + Missing(other, Distinct(key, |key|), |Distinct(key, |key|)|);
      && (forall x :: x in e <==> x in other || x in key)
      && (NoRepeats(other) ==> NoRepeats(e))
  {
    var d := Distinct(key, |key|);
    DistinctInOrder(key, |key|);
    assert key[..|key|] == key && d[..|d|] == d;
    OthersPermute(d, n);
    ExtendedHasBoth(other, d, |d|);
  }
}
