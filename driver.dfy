/**
 * The part of `main` (main.c) that decides what goes into the tree and what
 * comes out of it: the per-line classification, the loop of `insertAVL`
 * calls, `traverseAndProcess` with its two shortlists, and the order of the
 * minimum/maximum report. Files, tokenising and file names stay outside: a
 * line arrives as its already-parsed fields and output leaves as sequences.
 */
module Driver {
  import Avl
  import Traversal
  import Aggregation
  import opened Shortlist

  datatype Option<T> = None | Some(value: T)

  /**
   * One input line after tokenising: the power plant, HV-B, HV-A and LV
   * columns (-1 for "-"), the capacity and the load (0 for "-").
   */
  datatype Line = Line(plant: int, hvb: int, hva: int, lv: int, capacity: int, load: int)

  // ---------------------------------------------------------------------------
  // Classification of one line (main.c, lines 223-253)
  // ---------------------------------------------------------------------------

  /** Column `j` holds the first id present, reading the columns in order. */
  ghost predicate FirstPresentAt(cols: seq<int>, j: int)
  {
    0 <= j < |cols| && cols[j] != -1 && forall i :: 0 <= i < j ==> cols[i] == -1
  }

  /**
   * The station a line contributes, if any. The id is the first column present
   * in the order LV, HV-A, HV-B, power plant; a line with no column present or
   * a non-positive id contributes nothing; and only a line with capacity alone
   * or load alone contributes, as a capacity or as a consumption.
   */
  function Classify(plant: int, hvb: int, hva: int, lv: int, capacity: int, load: int): (r: Option<Avl.Station>)
    ensures var cols := [lv, hva, hvb, plant];
      r.Some? <==>
        (exists j :: FirstPresentAt(cols, j) && cols[j] > 0) &&
        ((capacity > 0 && load == 0) || (load > 0 && capacity == 0))
    ensures var cols := [lv, hva, hvb, plant];
      forall j :: FirstPresentAt(cols, j) && r.Some? ==> r.value.id == cols[j]
    ensures r.Some? && capacity > 0 ==> r.value.capacity == capacity && r.value.consumption == 0
    ensures r.Some? && load > 0 ==> r.value.capacity == 0 && r.value.consumption == load
  {
    ghost var cols := [lv, hva, hvb, plant];
    if lv == -1 && hva == -1 && hvb == -1 && plant == -1 then
      assert forall j :: !FirstPresentAt(cols, j);
      None
    else
      var id := if lv != -1 then lv else if hva != -1 then hva else if hvb != -1 then hvb else plant;
      assert FirstPresentAt(cols, if lv != -1 then 0 else if hva != -1 then 1 else if hvb != -1 then 2 else 3);
      if id <= 0 then None
      else if capacity > 0 && load == 0 then Some(Avl.Station(id, capacity, 0))
      else if load > 0 && capacity == 0 then Some(Avl.Station(id, 0, load))
      else None
  }

  /** The stations the lines contribute, in input order. */
  function Contributions(lines: seq<Line>): seq<Avl.Station>
  {
    if lines == [] then []
    else
      var l := lines[|lines| - 1];
      match Classify(l.plant, l.hvb, l.hva, l.lv, l.capacity, l.load)
      case None => Contributions(lines[..|lines| - 1])
      case Some(s) => Contributions(lines[..|lines| - 1]) + [s]
  }

  /**
   * The reading loop of `main`: each line that classifies goes into the tree
   * with `insertAVL`. The tree is the one the contributions build, whose
   * records are the per-id totals (`Aggregation.BuildTotals`).
   */
  method Aggregate(lines: seq<Line>) returns (root: Avl.Tree)
    ensures Avl.Valid(root) && root == Aggregation.Build(Contributions(lines))
  {
    root := Avl.Nil;
    var i := 0;
    while i < |lines|
      invariant 0 <= i <= |lines|
      invariant root == Aggregation.Build(Contributions(lines[..i]))
    {
      var l := lines[i];
      ContributionsStep(lines, i);
      match Classify(l.plant, l.hvb, l.hva, l.lv, l.capacity, l.load) {
        case None =>
        case Some(s) =>
          Aggregation.BuildSnoc(Contributions(lines[..i]), s);
          root := Avl.InsertAVL(root, s);
      }
      i := i + 1;
    }
    assert lines[..|lines|] == lines;
  }

  /** What one more line adds to the contributions. */
  lemma ContributionsStep(lines: seq<Line>, i: int)
    requires 0 <= i < |lines|
    ensures var l := lines[i];
      Contributions(lines[..i + 1]) ==
        match Classify(l.plant, l.hvb, l.hva, l.lv, l.capacity, l.load)
        case None => Contributions(lines[..i])
        case Some(s) => Contributions(lines[..i]) + [s]
  {
    assert lines[..i + 1][..i] == lines[..i];
  }

  // ---------------------------------------------------------------------------
  // traverseAndProcess (main.c, lines 306-320)
  // ---------------------------------------------------------------------------

  /** The shortlists are fed only on a run over LV stations and all consumers. */
  function IsMinMaxRun(stationType: string, consumerType: string): bool
  {
    stationType == "lv" && consumerType == "all"
  }

  function ToEntry(s: Avl.Station): (e: StationEntry)
    ensures e.id == s.id && Balance(e) == s.capacity - s.consumption
  {
    StationEntry(s.id, s.capacity, s.consumption)
  }

  /** The entries offered for a sequence of records, one per record, in order. */
  function ToEntries(ss: seq<Avl.Station>): (es: seq<StationEntry>)
    ensures |es| == |ss| && forall i :: 0 <= i < |ss| ==> es[i] == ToEntry(ss[i])
  {
    if ss == [] then [] else ToEntries(ss[..|ss| - 1]) + [ToEntry(ss[|ss| - 1])]
  }

  /**
   * `traverseAndProcess`: emit the records left subtree first, then the node,
   * then the right subtree; on a minimum/maximum run offer each record, as it
   * is emitted, to both shortlists, and otherwise leave them alone.
   */
  method TraverseAndProcess(node: Avl.Tree, topHigh: TopStations, topLow: TopStations,
                            stationType: string, consumerType: string)
    returns (out: seq<Avl.Station>)
    requires topHigh.Valid() && topLow.Valid() && topHigh != topLow && topHigh.entries != topLow.entries
    modifies topHigh, topHigh.entries, topLow, topLow.entries
    ensures topHigh.Valid() && topLow.Valid()
    ensures topHigh.entries == old(topHigh.entries) && topLow.entries == old(topLow.entries)
    ensures out == Avl.InOrderTraversal(node)
    ensures var offered := if IsMinMaxRun(stationType, consumerType) then ToEntries(out) else [];
      topHigh.Contents() == OfferAll(LowestFirst, TOP_COUNT, old(topHigh.Contents()), offered) &&
      topLow.Contents() == OfferAll(HighestFirst, TOP_COUNT, old(topLow.Contents()), offered)
    decreases node
  {
    match node
    case Nil =>
      out := [];
    case Node(st, left, right, _) =>
      ghost var high0, low0 := topHigh.Contents(), topLow.Contents();
      var outLeft := TraverseAndProcess(left, topHigh, topLow, stationType, consumerType);
      if IsMinMaxRun(stationType, consumerType) {
        topHigh.InsertTopHigh(ToEntry(st));
        topLow.InsertTopLow(ToEntry(st));
      }
      var outRight := TraverseAndProcess(right, topHigh, topLow, stationType, consumerType);
      out := outLeft + [st] + outRight;
      if IsMinMaxRun(stationType, consumerType) {
        OffersInOrder(LowestFirst, high0, outLeft, st, outRight);
        OffersInOrder(HighestFirst, low0, outLeft, st, outRight);
      }
  }

  /** Offering the left records, then the node, then the right ones, is offering them all. */
  lemma OffersInOrder(d: Direction, xs: seq<StationEntry>, l: seq<Avl.Station>, st: Avl.Station, r: seq<Avl.Station>)
    requires |xs| <= TOP_COUNT
    ensures OfferAll(d, TOP_COUNT, xs, ToEntries(l + [st] + r)) ==
            OfferAll(d, TOP_COUNT, Offer(d, TOP_COUNT, OfferAll(d, TOP_COUNT, xs, ToEntries(l)), ToEntry(st)), ToEntries(r))
  {
    var L, R := ToEntries(l), ToEntries(r);
    assert ToEntries(l + [st] + r) == L + [ToEntry(st)] + R;
    OfferAllAppend(d, TOP_COUNT, xs, L + [ToEntry(st)], R);
    OfferAllAppend(d, TOP_COUNT, xs, L, [ToEntry(st)]);
    assert [ToEntry(st)][..0] == [];
  }

  // ---------------------------------------------------------------------------
  // The minimum/maximum report (main.c, lines 288-295)
  // ---------------------------------------------------------------------------

  function Reversed(s: seq<StationEntry>): (r: seq<StationEntry>)
    ensures |r| == |s|
  {
    if s == [] then [] else Reversed(s[1..]) + [s[0]]
  }

  /** Position `k` of the reversal holds position `|s| - 1 - k` of the original. */
  lemma {:induction false} ReversedAt(s: seq<StationEntry>)
    ensures forall k :: 0 <= k < |s| ==> Reversed(s)[k] == s[|s| - 1 - k]
  {
    if s != [] {
      ReversedAt(s[1..]);
    }
  }

  /**
   * The report lines: the first shortlist front to back, then the second one
   * back to front.
   */
  method MinMaxReport(topHigh: TopStations, topLow: TopStations) returns (report: seq<StationEntry>)
    requires topHigh.Valid() && topLow.Valid()
    ensures report == topHigh.Contents() + Reversed(topLow.Contents())
  {
    report := [];
    var i := 0;
    while i < topHigh.size
      invariant 0 <= i <= topHigh.size
      invariant report == topHigh.entries[..i]
    {
      report := report + [topHigh.entries[i]];
      i := i + 1;
    }
    ghost var first := report;
    var j := topLow.size - 1;
    while j >= 0
      invariant -1 <= j < topLow.size
      invariant report == first + Reversed(topLow.entries[j + 1..topLow.size])
    {
      assert topLow.entries[j..topLow.size][1..] == topLow.entries[j + 1..topLow.size];
      report := report + [topLow.entries[j]];
      j := j - 1;
    }
  }

  /**
   * Reversing a list kept highest first gives it lowest first: the second half
   * of the report runs up to the most positive balance, which comes last.
   */
  lemma ReversedHighestFirst(xs: seq<StationEntry>)
    requires Sorted(HighestFirst, xs)
    ensures Sorted(LowestFirst, Reversed(xs))
  {
    ReversedAt(xs);
    var r := Reversed(xs);
    forall i, j | 0 <= i < j < |r| ensures !Before(LowestFirst, r[j], r[i]) {
      assert !Before(HighestFirst, xs[|xs| - 1 - i], xs[|xs| - 1 - j]);
    }
  }

  // ---------------------------------------------------------------------------
  // A whole run
  // ---------------------------------------------------------------------------

  /**
   * A run of `main` from parsed lines: build the tree, traverse it into the
   * output, and on a minimum/maximum run produce the report from the two
   * shortlists.
   */
  method Run(lines: seq<Line>, stationType: string, consumerType: string)
    returns (out: seq<Avl.Station>, report: seq<StationEntry>)
    ensures out == Avl.InOrderTraversal(Aggregation.Build(Contributions(lines)))
    ensures IsMinMaxRun(stationType, consumerType) ==>
      report == Take(TOP_COUNT, InsertionSort(LowestFirst, ToEntries(out))) +
                Reversed(Take(TOP_COUNT, InsertionSort(HighestFirst, ToEntries(out))))
    ensures !IsMinMaxRun(stationType, consumerType) ==> report == []
  {
    var root := Aggregate(lines);
    var topHigh := new TopStations();
    var topLow := new TopStations();
    topHigh.InitTopStations();
    topLow.InitTopStations();
    out := TraverseAndProcess(root, topHigh, topLow, stationType, consumerType);
    if IsMinMaxRun(stationType, consumerType) {
      OfferAllKeepsBest(LowestFirst, TOP_COUNT, ToEntries(out));
      OfferAllKeepsBest(HighestFirst, TOP_COUNT, ToEntries(out));
      report := MinMaxReport(topHigh, topLow);
    } else {
      report := [];
    }
  }
}
