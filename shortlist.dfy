/**
 * The two bounded shortlists of main.c (`TopStations`, `insertTopHigh`,
 * `insertTopLow`): a fixed array of `TOP_COUNT` entries and a size, filled by
 * appending or by overwriting the last slot, then ordered again by one pass of
 * adjacent swaps running from the new entry towards the front.
 */
module Shortlist {

  /** `StationEntry`: the id and totals of one station offered to a shortlist. */
  datatype StationEntry = StationEntry(id: int, capacity: int, consumption: int)

  const TOP_COUNT: nat := 10

  /** The key both shortlists order by: capacity minus consumption. */
  function Balance(e: StationEntry): int
  {
    e.capacity - e.consumption
  }

  /**
   * Which end of the balance scale a shortlist keeps, first entry first.
   * `insertTopHigh` keeps the lowest balances (`LowestFirst`), `insertTopLow`
   * the highest (`HighestFirst`).
   */
  datatype Direction = LowestFirst | HighestFirst

  /** The strict comparison on which the swap pass moves `a` in front of `b`. */
  predicate Before(d: Direction, a: StationEntry, b: StationEntry)
  {
    match d
    case LowestFirst => Balance(a) < Balance(b)
    case HighestFirst => Balance(a) > Balance(b)
  }

  /** No entry stands behind one it should come before. */
  ghost predicate Sorted(d: Direction, xs: seq<StationEntry>)
  {
    forall i, j :: 0 <= i < j < |xs| ==> !Before(d, xs[j], xs[i])
  }

  /**
   * What the swap pass does to `xs + [e]`: `e` moves in front of the entries
   * it comes strictly before, starting from the back, and stops at the first
   * one it does not.
   */
  function Insert(d: Direction, xs: seq<StationEntry>, e: StationEntry): seq<StationEntry>
  {
    if xs == [] then [e]
    else if Before(d, e, xs[|xs| - 1]) then Insert(d, xs[..|xs| - 1], e) + [xs[|xs| - 1]]
    else xs + [e]
  }

  /** Where the swap pass leaves `e`. */
  function InsertPos(d: Direction, xs: seq<StationEntry>, e: StationEntry): (p: nat)
    ensures p <= |xs|
  {
    if xs == [] then 0
    else if Before(d, e, xs[|xs| - 1]) then InsertPos(d, xs[..|xs| - 1], e)
    else |xs|
  }

  /**
   * One offer to a shortlist holding `xs` with room for `k`: a shortlist with
   * room takes the entry; a full one takes it only when it comes strictly
   * before the last entry, which it then replaces; otherwise nothing changes.
   */
  function Offer(d: Direction, k: nat, xs: seq<StationEntry>, e: StationEntry): (r: seq<StationEntry>)
    requires 0 < k && |xs| <= k
    ensures |xs| < k ==> |r| == |xs| + 1 && multiset(r) == multiset(xs) + multiset{e}
    ensures |xs| == k && !Before(d, e, xs[k - 1]) ==> r == xs
    ensures |xs| == k && Before(d, e, xs[k - 1]) ==>
              |r| == k && multiset(r) == multiset(xs) - multiset{xs[k - 1]} + multiset{e}
  {
    InsertPermutes(d, xs, e);
    if |xs| < k then Insert(d, xs, e)
    else if Before(d, e, xs[k - 1]) then
      InsertPermutes(d, xs[..k - 1], e);
      assert xs == xs[..k - 1] + [xs[k - 1]];
      Insert(d, xs[..k - 1], e)
    else xs
  }

  /** A run of offers, from the left, to a shortlist starting as `xs`. */
  function OfferAll(d: Direction, k: nat, xs: seq<StationEntry>, es: seq<StationEntry>): (r: seq<StationEntry>)
    requires 0 < k && |xs| <= k
    ensures |r| <= k
  {
    if es == [] then xs
    else Offer(d, k, OfferAll(d, k, xs, es[..|es| - 1]), es[|es| - 1])
  }

  /** The reference order: insertion sort with the same swap pass, no bound. */
  function InsertionSort(d: Direction, es: seq<StationEntry>): seq<StationEntry>
  {
    if es == [] then [] else Insert(d, InsertionSort(d, es[..|es| - 1]), es[|es| - 1])
  }

  // ---------------------------------------------------------------------------
  // Properties of the swap pass and of offers
  // ---------------------------------------------------------------------------

  /** The pass puts `e` at `InsertPos` and leaves the other entries in their order. */
  lemma {:induction false} InsertAt(d: Direction, xs: seq<StationEntry>, e: StationEntry)
    ensures var p := InsertPos(d, xs, e); Insert(d, xs, e) == xs[..p] + [e] + xs[p..]
    decreases |xs|
  {
    if xs != [] && Before(d, e, xs[|xs| - 1]) {
      var init := xs[..|xs| - 1];
      InsertAt(d, init, e);
      var p := InsertPos(d, init, e);
      assert init[..p] == xs[..p];
      assert init[p..] + [xs[|xs| - 1]] == xs[p..];
    }
  }

  /** The pass adds `e` and loses nothing. */
  lemma InsertPermutes(d: Direction, xs: seq<StationEntry>, e: StationEntry)
    ensures |Insert(d, xs, e)| == |xs| + 1
    ensures multiset(Insert(d, xs, e)) == multiset(xs) + multiset{e}
  {
    InsertAt(d, xs, e);
    var p := InsertPos(d, xs, e);
    assert xs == xs[..p] + xs[p..];
  }

  /**
   * On a sorted shortlist, `e` lands behind every entry it does not come
   * strictly before, ties included, and in front of every entry it does.
   */
  lemma {:induction false} InsertPosBounds(d: Direction, xs: seq<StationEntry>, e: StationEntry)
    requires Sorted(d, xs)
    ensures var p := InsertPos(d, xs, e);
      (forall i :: 0 <= i < p ==> !Before(d, e, xs[i])) &&
      (forall i :: p <= i < |xs| ==> Before(d, e, xs[i]))
    decreases |xs|
  {
    if xs != [] {
      var init, last := xs[..|xs| - 1], xs[|xs| - 1];
      if Before(d, e, last) {
        assert Sorted(d, init);
        InsertPosBounds(d, init, e);
      } else {
        forall i | 0 <= i < |xs| ensures !Before(d, e, xs[i]) {
          assert !Before(d, last, xs[i]);
        }
      }
    }
  }

  /** The pass keeps a sorted shortlist sorted. */
  lemma InsertSorted(d: Direction, xs: seq<StationEntry>, e: StationEntry)
    requires Sorted(d, xs)
    ensures Sorted(d, Insert(d, xs, e))
  {
    InsertAt(d, xs, e);
    InsertPosBounds(d, xs, e);
    var p := InsertPos(d, xs, e);
    var r := Insert(d, xs, e);
    forall i, j | 0 <= i < j < |r| ensures !Before(d, r[j], r[i]) {
      if j < p || i > p {
        var i', j' := if i < p then i else i - 1, if j < p then j else j - 1;
        assert r[i] == xs[i'] && r[j] == xs[j'];
      } else if i == p {
        assert r[j] == xs[j - 1];
      } else if j == p {
        assert r[i] == xs[i];
      } else {
        assert r[i] == xs[i] && r[j] == xs[j - 1];
      }
    }
  }

  /** An offer keeps a sorted shortlist sorted. */
  lemma OfferSorted(d: Direction, k: nat, xs: seq<StationEntry>, e: StationEntry)
    requires 0 < k && |xs| <= k && Sorted(d, xs)
    ensures Sorted(d, Offer(d, k, xs, e))
  {
    if |xs| < k {
      InsertSorted(d, xs, e);
    } else if Before(d, e, xs[k - 1]) {
      assert Sorted(d, xs[..k - 1]);
      InsertSorted(d, xs[..k - 1], e);
    }
  }

  /**
   * The entries of a sorted list that `e` comes strictly before: the pass
   * takes `e` in front of all of them.
   */
  lemma {:induction false} InsertPastSuffix(d: Direction, xs: seq<StationEntry>, e: StationEntry, m: nat)
    requires m <= |xs|
    requires forall i :: m <= i < |xs| ==> Before(d, e, xs[i])
    ensures Insert(d, xs, e) == Insert(d, xs[..m], e) + xs[m..]
    decreases |xs|
  {
    if m < |xs| {
      var init := xs[..|xs| - 1];
      assert init[..m] == xs[..m];
      InsertPastSuffix(d, init, e, m);
      assert init[m..] + [xs[|xs| - 1]] == xs[m..];
    } else {
      assert xs[..m] == xs;
    }
  }

  /**
   * An offer to the first `k` entries of a sorted list is the first `k`
   * entries of the list with the entry inserted: a bounded shortlist loses
   * exactly what falls off the end.
   */
  lemma OfferTake(d: Direction, k: nat, s: seq<StationEntry>, e: StationEntry)
    requires 0 < k && Sorted(d, s)
    ensures Offer(d, k, Take(k, s), e) == Take(k, Insert(d, s, e))
  {
    InsertPermutes(d, s, e);
    if |s| < k {
      assert Take(k, s) == s;
      assert Offer(d, k, s, e) == Insert(d, s, e);
    } else {
      var t := s[..k];
      assert Take(k, s) == t && t[k - 1] == s[k - 1];
      if Before(d, e, s[k - 1]) {
        assert t[..k - 1] == s[..k - 1];
        assert Offer(d, k, t, e) == Insert(d, s[..k - 1], e);
        TakeAdmitted(d, k, s, e);
      } else {
        assert Offer(d, k, t, e) == t;
        TakeRejected(d, k, s, e);
      }
    }
  }

  /** An entry that comes before the `k`-th of a sorted list displaces it. */
  lemma TakeAdmitted(d: Direction, k: nat, s: seq<StationEntry>, e: StationEntry)
    requires 0 < k <= |s| && Sorted(d, s) && Before(d, e, s[k - 1])
    ensures Insert(d, s[..k - 1], e) == Take(k, Insert(d, s, e))
  {
    forall i | k - 1 <= i < |s| ensures Before(d, e, s[i]) {
      assert !Before(d, s[i], s[k - 1]);
    }
    InsertPastSuffix(d, s, e, k - 1);
    InsertPermutes(d, s, e);
    InsertPermutes(d, s[..k - 1], e);
  }

  /** An entry that does not come before the `k`-th of a sorted list lands behind it. */
  lemma TakeRejected(d: Direction, k: nat, s: seq<StationEntry>, e: StationEntry)
    requires 0 < k <= |s| && Sorted(d, s) && !Before(d, e, s[k - 1])
    ensures s[..k] == Take(k, Insert(d, s, e))
  {
    InsertAt(d, s, e);
    InsertPosBounds(d, s, e);
    InsertPermutes(d, s, e);
    var p := InsertPos(d, s, e);
    assert p >= k;
    assert Insert(d, s, e)[..k] == s[..k];
  }

  function Take(k: nat, s: seq<StationEntry>): (r: seq<StationEntry>)
    ensures |r| == if |s| < k then |s| else k
  {
    if |s| <= k then s else s[..k]
  }

  /** Insertion sort with the pass is a sorting permutation. */
  lemma {:induction false} InsertionSortSorts(d: Direction, es: seq<StationEntry>)
    ensures Sorted(d, InsertionSort(d, es))
    ensures multiset(InsertionSort(d, es)) == multiset(es)
    decreases |es|
  {
    if es != [] {
      var init := es[..|es| - 1];
      InsertionSortSorts(d, init);
      InsertSorted(d, InsertionSort(d, init), es[|es| - 1]);
      InsertPermutes(d, InsertionSort(d, init), es[|es| - 1]);
      assert es == init + [es[|es| - 1]];
    }
  }

  /**
   * After any run of offers to an empty shortlist, it holds the first `k`
   * entries of the stable sort of everything offered: the `k` best balances
   * seen, ties in the order they were offered.
   */
  lemma {:induction false} OfferAllKeepsBest(d: Direction, k: nat, es: seq<StationEntry>)
    requires 0 < k
    ensures OfferAll(d, k, [], es) == Take(k, InsertionSort(d, es))
    decreases |es|
  {
    if es != [] {
      var init := es[..|es| - 1];
      OfferAllKeepsBest(d, k, init);
      InsertionSortSorts(d, init);
      OfferTake(d, k, InsertionSort(d, init), es[|es| - 1]);
    }
  }

  /** Offers made in two runs are the offers of the whole run. */
  lemma {:induction false} OfferAllAppend(d: Direction, k: nat, xs: seq<StationEntry>, a: seq<StationEntry>, b: seq<StationEntry>)
    requires 0 < k && |xs| <= k
    ensures OfferAll(d, k, xs, a + b) == OfferAll(d, k, OfferAll(d, k, xs, a), b)
    decreases |b|
  {
    if b == [] {
      assert a + b == a;
    } else {
      assert (a + b)[..|a + b| - 1] == a + b[..|b| - 1];
      assert (a + b)[|a + b| - 1] == b[|b| - 1];
      OfferAllAppend(d, k, xs, a, b[..|b| - 1]);
    }
  }

  // ---------------------------------------------------------------------------
  // The shortlist object
  // ---------------------------------------------------------------------------

  /** `TopStations`: a fixed array of `TOP_COUNT` entries, of which the first `size` are in use. */
  class TopStations {
    var entries: array<StationEntry>
    var size: int

    ghost predicate Valid()
      reads this
    {
      entries.Length == TOP_COUNT && 0 <= size <= TOP_COUNT
    }

    /** The entries in use, front first. */
    ghost function Contents(): seq<StationEntry>
      reads this, entries
      requires Valid()
    {
      entries[..size]
    }

    /** Storage for a shortlist, as the declaration of a `TopStations` variable provides. */
    constructor ()
      ensures Valid() && fresh(entries) && Contents() == []
    {
      entries := new StationEntry[TOP_COUNT](_ => StationEntry(0, 0, 0));
      size := 0;
    }

    /** `initTopStations`: the shortlist becomes empty. */
    method InitTopStations()
      requires entries.Length == TOP_COUNT
      modifies this
      ensures Valid() && entries == old(entries) && Contents() == []
    {
      size := 0;
    }

    /**
     * `insertTopHigh`: offer an entry to the shortlist of the lowest balances,
     * kept lowest first.
     */
    method InsertTopHigh(station: StationEntry)
      requires Valid()
      modifies this, entries
      ensures Valid() && entries == old(entries)
      ensures Contents() == Offer(LowestFirst, TOP_COUNT, old(Contents()), station)
    {
      InsertTop(LowestFirst, station);
    }

    /**
     * `insertTopLow`: offer an entry to the shortlist of the highest balances,
     * kept highest first.
     */
    method InsertTopLow(station: StationEntry)
      requires Valid()
      modifies this, entries
      ensures Valid() && entries == old(entries)
      ensures Contents() == Offer(HighestFirst, TOP_COUNT, old(Contents()), station)
    {
      InsertTop(HighestFirst, station);
    }

    /** The body `insertTopHigh` and `insertTopLow` share, up to the comparison. */
    method InsertTop(d: Direction, station: StationEntry)
      requires Valid()
      modifies this, entries
      ensures Valid() && entries == old(entries)
      ensures Contents() == Offer(d, TOP_COUNT, old(Contents()), station)
    {
      ghost var xs := entries[..size];
      if size < TOP_COUNT {
        entries[size] := station;
        size := size + 1;
        assert entries[..size - 1] == xs;
        BubbleUp(d);
      } else if Before(d, station, entries[TOP_COUNT - 1]) {
        entries[TOP_COUNT - 1] := station;
        assert entries[..size - 1] == xs[..TOP_COUNT - 1];
        BubbleUp(d);
      }
    }

    /**
     * The swap pass: the last entry in use moves towards the front while it
     * comes strictly before its neighbour.
     */
    method BubbleUp(d: Direction)
      requires Valid() && size > 0
      modifies entries
      ensures Contents() == Insert(d, old(entries[..size - 1]), old(entries[size - 1]))
    {
      var a, n := entries, size;
      ghost var xs, e := a[..n - 1], a[n - 1];
      var i := n - 1;
      assert xs[..i] == xs && xs[i..] == [];
      while i > 0
        invariant 0 <= i <= n - 1
        invariant a[..n] == xs[..i] + [e] + xs[i..]
        invariant Insert(d, xs, e) == Insert(d, xs[..i], e) + xs[i..]
        decreases i
      {
        ghost var cur := a[..n];
        SwapView(cur, xs, e, i);
        if Before(d, a[i], a[i - 1]) {
          a[i], a[i - 1] := a[i - 1], a[i];
          assert a[..n] == cur[i := xs[i - 1]][i - 1 := e];
          InsertStep(d, xs, e, i);
          i := i - 1;
        } else {
          break;
        }
      }
      if i > 0 {
        InsertStop(d, xs, e, i);
      } else {
        assert xs[..0] == [];
      }
    }
  }

  /** One swap of the pass, on the array's contents. */
  lemma SwapView(cur: seq<StationEntry>, xs: seq<StationEntry>, e: StationEntry, i: int)
    requires 0 < i <= |xs| && cur == xs[..i] + [e] + xs[i..]
    ensures cur[i] == e && cur[i - 1] == xs[i - 1]
    ensures cur[i := xs[i - 1]][i - 1 := e] == xs[..i - 1] + [e] + xs[i - 1..]
  {
  }

  /** One swap of the pass, on the specification side. */
  lemma InsertStep(d: Direction, xs: seq<StationEntry>, e: StationEntry, i: int)
    requires 0 < i <= |xs| && Before(d, e, xs[i - 1])
    requires Insert(d, xs, e) == Insert(d, xs[..i], e) + xs[i..]
    ensures Insert(d, xs, e) == Insert(d, xs[..i - 1], e) + xs[i - 1..]
  {
    assert xs[..i][..i - 1] == xs[..i - 1];
    assert xs[i - 1..] == [xs[i - 1]] + xs[i..];
  }

  /** Where the pass stops, on the specification side. */
  lemma InsertStop(d: Direction, xs: seq<StationEntry>, e: StationEntry, i: int)
    requires 0 < i <= |xs| && !Before(d, e, xs[i - 1])
    ensures Insert(d, xs[..i], e) == xs[..i] + [e]
  {
  }
}
