/** The recent view: the lists sorted newest first and cut at five.
    JavaScript requires `sort` to be stable, so lists created at the same
    instant keep their relative order. The sort is modelled by insertion
    sort; `SortUnique` shows that any stable descending sort gives the same
    sequence, so the choice of algorithm does not matter. */
module Recency {
  import opened Lists
  import Seqs

  /** How many lists the recent view shows. */
  const RecentLimit: nat := 5

  /** Newest first: `createdAt` never increases along s. */
  predicate Descending(s: seq<GList>) {
    forall i, j :: 0 <= i < j < |s| ==> s[i].createdAt >= s[j].createdAt
  }

  /** The lists of s created at instant k, in their order in s. Written
      out rather than through `Seqs.Filter` so that the stability proofs
      stay first-order; `StampedMembers` states its membership. */
  function Stamped(s: seq<GList>, k: int): seq<GList> {
    if s == [] then []
    else if s[0].createdAt == k then [s[0]] + Stamped(s[1..], k)
    else Stamped(s[1..], k)
  }

  /** Stamped(s, k) holds exactly the lists of s created at k. */
  lemma {:induction false} StampedMembers(s: seq<GList>, k: int, x: GList)
    ensures x in Stamped(s, k) <==> x in s && x.createdAt == k
  {
    if s != [] {
      StampedMembers(s[1..], k, x);
      assert s == [s[0]] + s[1..];
    }
  }

  /** r orders the lists of s as s does wherever their instants tie. */
  ghost predicate StableOf(s: seq<GList>, r: seq<GList>) {
    forall k :: Stamped(r, k) == Stamped(s, k)
  }

  lemma {:induction false} StampedAppend(a: seq<GList>, b: seq<GList>, k: int)
    ensures Stamped(a + b, k) == Stamped(a, k) + Stamped(b, k)
  {
    if a == [] {
      assert a + b == b;
    } else {
      assert (a + b)[1..] == a[1..] + b;
      StampedAppend(a[1..], b, k);
    }
  }

  /** Puts x in front of the first list of t strictly older than it, so x
      stays ahead of the lists of t created at the same instant. */
  function Insert(x: GList, t: seq<GList>): (r: seq<GList>)
    ensures multiset(r) == multiset(t) + multiset{x}
  {
    if t == [] || x.createdAt >= t[0].createdAt then [x] + t
    else
      assert t == [t[0]] + t[1..];
      [t[0]] + Insert(x, t[1..])
  }

  /** x is at least as new as every list of t. */
  predicate NoOlderThan(x: GList, t: seq<GList>) {
    forall j :: 0 <= j < |t| ==> t[j].createdAt <= x.createdAt
  }

  lemma ConsDescending(x: GList, t: seq<GList>)
    requires Descending(t) && NoOlderThan(x, t)
    ensures Descending([x] + t)
  {
  }

  lemma {:induction false} InsertDescending(x: GList, t: seq<GList>)
    requires Descending(t)
    ensures Descending(Insert(x, t))
  {
    if t == [] || x.createdAt >= t[0].createdAt {
      ConsDescending(x, t);
    } else {
      var t0, t1 := t[0], t[1..];
      var rest := Insert(x, t1);
      InsertDescending(x, t1);
      forall j | 0 <= j < |rest| ensures rest[j].createdAt <= t0.createdAt {
        assert rest[j] in multiset(rest);
        if rest[j] != x {
          assert rest[j] in multiset(t1);
          var h :| 0 <= h < |t1| && t1[h] == rest[j];
          assert t[h + 1] == rest[j];
        }
      }
      ConsDescending(t0, rest);
    }
  }

  lemma StampedCons(y: GList, s: seq<GList>, k: int)
    ensures Stamped([y] + s, k) == if y.createdAt == k then [y] + Stamped(s, k) else Stamped(s, k)
  {
    assert ([y] + s)[1..] == s;
  }

  /** Inserting into a descending sequence keeps each instant's lists in
      the order of [x] + t. */
  lemma {:induction false} InsertStable(x: GList, t: seq<GList>, k: int)
    requires Descending(t)
    ensures Stamped(Insert(x, t), k) == Stamped([x] + t, k)
  {
    if t == [] || x.createdAt >= t[0].createdAt {
    } else {
      var t0, t1 := t[0], t[1..];
      assert t == [t0] + t1;
      InsertStable(x, t1, k);
      StampedCons(t0, Insert(x, t1), k);
      StampedCons(x, t1, k);
      StampedCons(x, t, k);
      StampedCons(t0, t1, k);
      // t0 and x were created at different instants: at most one is kept
      if k == t0.createdAt {
        assert Stamped([x] + t, k) == [t0] + Stamped(t1, k);
      } else if k == x.createdAt {
        assert Stamped([x] + t, k) == [x] + Stamped(t1, k);
      } else {
        assert Stamped([x] + t, k) == Stamped(t1, k);
      }
    }
  }

  /** The lists sorted newest first, ties in their original order. */
  function SortByRecency(s: seq<GList>): (r: seq<GList>)
    ensures multiset(r) == multiset(s) && |r| == |s|
    ensures Descending(r)
  {
    if s == [] then []
    else
      assert s == [s[0]] + s[1..];
      InsertDescending(s[0], SortByRecency(s[1..]));
      Insert(s[0], SortByRecency(s[1..]))
  }

  lemma {:induction false} SortStable(s: seq<GList>)
    ensures StableOf(s, SortByRecency(s))
  {
    if s != [] {
      SortStable(s[1..]);
      forall k ensures Stamped(SortByRecency(s), k) == Stamped(s, k) {
        InsertStable(s[0], SortByRecency(s[1..]), k);
        StampedAppend([s[0]], SortByRecency(s[1..]), k);
        StampedAppend([s[0]], s[1..], k);
        assert s == [s[0]] + s[1..];
      }
    }
  }

  lemma FirstIsStamped(s: seq<GList>)
    ensures s != [] ==> s[0] in Stamped(s, s[0].createdAt)
  {
    if s != [] {
      StampedCons(s[0], s[1..], s[0].createdAt);
      assert s == [s[0]] + s[1..];
    }
  }

  /** Two descending sequences with the same lists per instant start at
      the same instant. */
  lemma SameNewestInstant(a: seq<GList>, b: seq<GList>)
    requires a != [] && b != [] && Descending(a) && Descending(b)
    requires Stamped(a, a[0].createdAt) == Stamped(b, a[0].createdAt)
    requires Stamped(a, b[0].createdAt) == Stamped(b, b[0].createdAt)
    ensures a[0].createdAt == b[0].createdAt
  {
    FirstIsStamped(a);
    FirstIsStamped(b);
    StampedMembers(b, a[0].createdAt, a[0]);
    StampedMembers(a, b[0].createdAt, b[0]);
    var i :| 0 <= i < |b| && b[i] == a[0];
    var j :| 0 <= j < |a| && a[j] == b[0];
  }

  /** Equal heads and equal lists at k leave equal tails at k. */
  lemma TailsStamped(a: seq<GList>, b: seq<GList>, k: int)
    requires a != [] && b != [] && a[0] == b[0]
    requires Stamped(a, k) == Stamped(b, k)
    ensures Stamped(a[1..], k) == Stamped(b[1..], k)
  {
    var ta, tb := Stamped(a[1..], k), Stamped(b[1..], k);
    if a[0].createdAt == k {
      assert Stamped(a, k) == [a[0]] + ta;
      assert Stamped(b, k) == [a[0]] + tb;
      assert ([a[0]] + ta)[1..] == ta;
      assert ([a[0]] + tb)[1..] == tb;
    }
  }

  /** Two descending sequences that agree on the order of every instant's
      lists are equal. */
  lemma {:induction false} DescendingStableUnique(a: seq<GList>, b: seq<GList>)
    requires Descending(a) && Descending(b)
    requires forall k :: Stamped(a, k) == Stamped(b, k)
    ensures a == b
    decreases |a|
  {
    FirstIsStamped(a);
    FirstIsStamped(b);
    if a == [] {
      if b != [] {
        assert false;
      }
    } else if b == [] {
      assert false;
    } else {
      var k := a[0].createdAt;
      SameNewestInstant(a, b);
      // the first list of that instant heads both
      assert a == [a[0]] + a[1..] && b == [b[0]] + b[1..];
      StampedCons(a[0], a[1..], k);
      StampedCons(b[0], b[1..], k);
      assert a[0] == Stamped(a, k)[0] == Stamped(b, k)[0] == b[0];
      forall k' ensures Stamped(a[1..], k') == Stamped(b[1..], k') {
        TailsStamped(a, b, k');
      }
      DescendingStableUnique(a[1..], b[1..]);
    }
  }

  /** SortByRecency is the stable descending sort: every sequence that is
      newest first and keeps ties in their original order is SortByRecency(s). */
  lemma SortUnique(s: seq<GList>, r: seq<GList>)
    requires Descending(r) && StableOf(s, r)
    ensures r == SortByRecency(s)
  {
    SortStable(s);
    DescendingStableUnique(r, SortByRecency(s));
  }

  /** A sequence already newest first is left as it is. */
  lemma SortedIsFixed(s: seq<GList>)
    requires Descending(s)
    ensures SortByRecency(s) == s
  {
    SortUnique(s, s);
  }

  /** Sorting the sort's own output changes nothing: a second in-place sort
      with no change in between reorders nothing. */
  lemma SortIdempotent(s: seq<GList>)
    ensures SortByRecency(SortByRecency(s)) == SortByRecency(s)
  {
    var r := SortByRecency(s);
    SortStable(r);
    DescendingStableUnique(SortByRecency(r), r);
  }

  /** Every prefix of a newest-first sequence is newest first. */
  lemma PrefixDescending(sorted: seq<GList>, n: nat)
    requires Descending(sorted) && n <= |sorted|
    ensures Descending(sorted[..n])
  {
    forall i, j | 0 <= i < j < n ensures sorted[..n][i].createdAt >= sorted[..n][j].createdAt {
      assert sorted[..n][i] == sorted[i] && sorted[..n][j] == sorted[j];
    }
  }

  /** In a newest-first sequence nothing after position n is newer than
      anything before it. */
  lemma DroppedNotNewer(sorted: seq<GList>, n: nat)
    requires Descending(sorted) && n <= |sorted|
    ensures forall x, y :: x in multiset(sorted[n..]) && y in sorted[..n] ==> x.createdAt <= y.createdAt
  {
    forall x, y | x in multiset(sorted[n..]) && y in sorted[..n]
      ensures x.createdAt <= y.createdAt
    {
      var j :| 0 <= j < |sorted[n..]| && sorted[n..][j] == x;
      var i :| 0 <= i < n && sorted[..n][i] == y;
      assert sorted[i] == y && sorted[n + j] == x;
    }
  }

  /** The first n lists of a descending arrangement of lists are newest
      first, drawn from lists, and no list they leave out is newer than one
      they keep. */
  lemma PrefixIsNewest(lists: seq<GList>, sorted: seq<GList>, n: nat)
    requires Descending(sorted) && multiset(sorted) == multiset(lists) && n <= |sorted|
    ensures Descending(sorted[..n])
    ensures multiset(sorted[..n]) <= multiset(lists)
    ensures n == |sorted| ==> multiset(sorted[..n]) == multiset(lists)
    ensures forall x, y :: x in multiset(lists) - multiset(sorted[..n]) && y in sorted[..n] ==> x.createdAt <= y.createdAt
  {
    var kept, dropped := sorted[..n], sorted[n..];
    assert sorted == kept + dropped;
    assert multiset(lists) - multiset(kept) == multiset(dropped);
    PrefixDescending(sorted, n);
    DroppedNotNewer(sorted, n);
    if n == |sorted| {
      assert kept == sorted;
    }
  }

  /** A prefix of a stable arrangement of lists keeps, for every instant,
      the first lists of that instant in their order in lists. */
  lemma PrefixStamped(lists: seq<GList>, sorted: seq<GList>, n: nat)
    requires StableOf(lists, sorted) && n <= |sorted|
    ensures forall k :: Stamped(sorted[..n], k) <= Stamped(lists, k)
  {
    forall k ensures Stamped(sorted[..n], k) <= Stamped(lists, k) {
      assert sorted == sorted[..n] + sorted[n..];
      StampedAppend(sorted[..n], sorted[n..], k);
    }
  }

  /** The recent view: at most RecentLimit lists, newest first, drawn
      from lists; all of lists when there are few enough; and no list left
      out is newer than one shown. */
  function RecentLists(lists: seq<GList>): (r: seq<GList>)
    ensures |r| == if |lists| < RecentLimit then |lists| else RecentLimit
    ensures Descending(r)
    ensures multiset(r) <= multiset(lists)
    ensures |lists| <= RecentLimit ==> multiset(r) == multiset(lists)
    ensures forall x, y :: x in multiset(lists) - multiset(r) && y in r ==> x.createdAt <= y.createdAt
    ensures forall k :: Stamped(r, k) <= Stamped(lists, k)
  {
    var sorted := SortByRecency(lists);
    var n := if |sorted| < RecentLimit then |sorted| else RecentLimit;
    PrefixIsNewest(lists, sorted, n);
    SortStable(lists);
    PrefixStamped(lists, sorted, n);
    Seqs.Take(sorted, RecentLimit)
  }
}
