/** Querysets over a table of records keyed by auto-incremented primary keys.
    A filter keeps the rows satisfying a condition; results are listed newest
    first, which for rows whose creation time grows with their key is the
    order of descending keys. */
module Query {

  /** Strictly decreasing: newest first, no row listed twice. */
  predicate Descending(ids: seq<nat>) {
    forall i, j :: 0 <= i < j < |ids| ==> ids[i] > ids[j]
  }

  /** The keys below `n` whose row satisfies `keep`, newest first. */
  function Where<T>(rows: map<nat, T>, n: nat, keep: T -> bool): (ids: seq<nat>)
    ensures forall k :: k in ids <==> k < n && k in rows && keep(rows[k])
    ensures Descending(ids)
    decreases n
  {
    if n == 0 then []
    else
      var older := Where(rows, n - 1, keep);
      if n - 1 in rows && keep(rows[n - 1]) then
        assert forall k :: k in older ==> k < n - 1;
        assert forall i :: 0 <= i < |older| ==> older[i] in older;
        [n - 1] + older
      else older
  }

  /** The first entry of a newest-first listing is its newest row. */
  lemma HeadIsNewest(ids: seq<nat>, k: nat)
    requires Descending(ids) && k in ids
    ensures k <= ids[0]
  {
    var i :| 0 <= i < |ids| && ids[i] == k;
    if i > 0 {
      assert ids[0] > ids[i];
    }
  }

  /** A non-empty listing lists its first entry. */
  lemma HeadIsListed(ids: seq<nat>)
    requires ids != []
    ensures ids[0] in ids
  {
  }

  /** Two newest-first listings of the same rows are the same listing. */
  lemma {:induction false} DescendingUnique(a: seq<nat>, b: seq<nat>)
    requires Descending(a) && Descending(b)
    requires forall k :: k in a <==> k in b
    ensures a == b
    decreases |a|
  {
    if a == [] {
      if b != [] {
        HeadIsListed(b);
        assert false;
      }
    } else {
      assert a[0] in a;
      assert a[0] in b;
      assert b[0] in a;
      assert a[0] == b[0] by {
        HeadIsNewest(a, b[0]);
        HeadIsNewest(b, a[0]);
      }
      forall k
        ensures k in a[1..] <==> k in b[1..]
      {
        if k in a[1..] {
          var i :| 1 <= i < |a| && a[i] == k;
          assert k < a[0];
          assert k in b;
          var j :| 0 <= j < |b| && b[j] == k;
          assert j != 0;
          assert b[1..][j - 1] == k;
        }
        if k in b[1..] {
          var j :| 1 <= j < |b| && b[j] == k;
          assert k < b[0];
          assert k in a;
          var i :| 0 <= i < |a| && a[i] == k;
          assert i != 0;
          assert a[1..][i - 1] == k;
        }
      }
      DescendingUnique(a[1..], b[1..]);
      assert a == [a[0]] + a[1..] && b == [b[0]] + b[1..];
    }
  }

  /** Any newest-first listing of exactly the rows a filter selects is that filter's result;
      so two filters selecting the same rows give the same listing. */
  lemma WhereUnique<T>(rows: map<nat, T>, n: nat, keep: T -> bool, ids: seq<nat>)
    requires Descending(ids)
    requires forall k :: k in ids <==> k < n && k in rows && keep(rows[k])
    ensures ids == Where(rows, n, keep)
  {
    DescendingUnique(ids, Where(rows, n, keep));
  }
}
