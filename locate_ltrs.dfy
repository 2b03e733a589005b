/**
 * An earlier draft of the pairing pipeline over bare coordinate pairs: per hit, the HSPs
 * spanning more than 90% of the query become ranges split by strand and sorted by midpoint;
 * pairs of ranges 4000..10000 nt apart are candidate ERVs, and each is given two 5000 nt
 * flanking windows to fetch.
 */
module LocateLtrs {
  import opened Wrappers
  import opened RubyCore
  import opened Enumerable

  /** `FLANKING_DISTANCE = 5_000`. */
  const FLANKING_DISTANCE := 5000

  /** `ERV_DISTANCE = 4_000..10_000`. */
  const ERV_DISTANCE_MIN := 4000
  const ERV_DISTANCE_MAX := 10000

  /** `[hit-from, hit-to]` of one HSP, as read from the report. */
  datatype Coord = Coord(from: int, to: int)

  /** A Ruby `Range`, `begin..end`. */
  datatype Range = Range(begin: int, end: int)

  /** One `Hit` element of the report: its identifier, its accession and its HSP coordinates. */
  datatype HitGroup = HitGroup(hitId: string, accession: string, coords: seq<Coord>)

  /** `{ plus: [...], minus: [...] }`. */
  datatype Locations = Locations(plus: seq<Range>, minus: seq<Range>)

  /** The hash `parse_xml` builds for one hit. */
  datatype ParsedHit = ParsedHit(id: Option<string>, accession: string, locations: Locations)

  /** The same hash after `filter` merged in its `ltr_pairs`. */
  datatype PairedHit = PairedHit(id: Option<string>, accession: string, locations: Locations, ltrPairs: seq<(Range, Range)>)

  /** The stretch `sequence_from_entrez(id, start, stop)` asks for. */
  datatype Window = Window(id: Option<string>, start: int, stop: int)

  /** One element of `flanking_pairs`: the pair with the two windows on either side of it. */
  datatype FlankingPair = FlankingPair(coordinates: (Range, Range), flanking5: Window, flanking3: Window)

  function Abs(x: int): int
  {
    if x < 0 then -x else x
  }

  /** `(to - from).abs > query_length * 0.9`, in integers. */
  predicate LongEnough(queryLength: int, c: Coord)
  {
    10 * Abs(c.to - c.from) > 9 * queryLength
  }

  /** The `partition` test: a pair running upwards is on the plus strand. */
  predicate IsPlus(c: Coord)
  {
    c.to > c.from
  }

  predicate IsMinus(c: Coord)
  {
    !IsPlus(c)
  }

  /** `Range.new(*coordinates.sort)`. */
  function ToRange(c: Coord): (r: Range)
    ensures r.begin <= r.end
    ensures IsPlus(c) ==> r == Range(c.from, c.to)
    ensures IsMinus(c) ==> r == Range(c.to, c.from)
  {
    if c.from <= c.to then Range(c.from, c.to) else Range(c.to, c.from)
  }

  /** `midpoint(range)`: `(begin + end) / 2.0`. */
  function Midpoint(r: Range): real
  {
    (r.begin + r.end) as real / 2.0
  }

  /** Twice the midpoint, the integer key the model sorts by. */
  function Key(r: Range): int
  {
    r.begin + r.end
  }

  lemma {:induction false} MidpointOrder(a: Range, b: Range)
    ensures Midpoint(a) < Midpoint(b) <==> Key(a) < Key(b)
  {
  }

  /** The `select` step of `parse_coordinates`. */
  function Kept(queryLength: int, coords: seq<Coord>): seq<Coord>
  {
    Filter((c: Coord) => LongEnough(queryLength, c), coords)
  }

  function ToRanges(cs: seq<Coord>): (r: seq<Range>)
    ensures |r| == |cs| && forall i :: 0 <= i < |cs| ==> r[i] == ToRange(cs[i])
  {
    seq(|cs|, i requires 0 <= i < |cs| => ToRange(cs[i]))
  }

  /** One strand's list: the ranges of its pairs, sorted by midpoint. */
  function StrandRanges(cs: seq<Coord>): (r: seq<Range>)
    ensures SortedBy(r, Key)
    ensures |r| == |cs|
    ensures forall x :: x in r <==> exists c :: c in cs && x == ToRange(c)
    ensures multiset(r) == multiset(ToRanges(cs))
  {
    var ranges := ToRanges(cs);
    var r := SortBy(ranges, Key);
    assert |r| == |multiset(r)| == |ranges|;
    assert forall x :: x in r <==> x in multiset(ranges);
    assert forall x :: x in ranges ==> exists c :: c in cs && x == ToRange(c) by {
      forall x | x in ranges ensures exists c :: c in cs && x == ToRange(c) {
        var i :| 0 <= i < |ranges| && ranges[i] == x;
        assert cs[i] in cs;
      }
    }
    assert forall c :: c in cs ==> ToRange(c) in ranges by {
      forall c | c in cs ensures ToRange(c) in ranges {
        var i :| 0 <= i < |cs| && cs[i] == c;
        assert ranges[i] == ToRange(c);
      }
    }
    r
  }

  /** `parse_coordinates`, on the coordinate pairs of one hit. */
  function ParseCoordinates(queryLength: int, coords: seq<Coord>): Locations
  {
    var kept := Kept(queryLength, coords);
    Locations(StrandRanges(Filter(IsPlus, kept)), StrandRanges(Filter(IsMinus, kept)))
  }

  /**
   * Every long-enough pair lands on exactly one strand, as the range running from its smaller
   * to its larger coordinate; nothing else lands anywhere, and each strand is sorted by midpoint.
   */
  lemma {:induction false} ParseCoordinatesSpec(queryLength: int, coords: seq<Coord>)
    ensures var r := ParseCoordinates(queryLength, coords);
            && SortedBy(r.plus, Key) && SortedBy(r.minus, Key)
            && (forall x :: x in r.plus <==>
                  exists c :: c in coords && LongEnough(queryLength, c) && c.to > c.from && x == Range(c.from, c.to))
            && (forall x :: x in r.minus <==>
                  exists c :: c in coords && LongEnough(queryLength, c) && c.to <= c.from && x == Range(c.to, c.from))
            && (forall x :: x in r.plus ==> x.begin < x.end)
            && (forall x :: x in r.minus ==> x.begin <= x.end)
            && |r.plus| + |r.minus| == |Kept(queryLength, coords)|
  {
    var kept := Kept(queryLength, coords);
    FilterPartition(IsPlus, IsMinus, kept);
  }

  /** `parse_xml`, on hits already read from the report: the identifier is the second `|` field. */
  function ParseHits(queryLength: int, groups: seq<HitGroup>): (r: seq<ParsedHit>)
    ensures |r| == |groups|
    ensures forall i :: 0 <= i < |groups| ==>
              && r[i].id == SecondField(groups[i].hitId, '|')
              && r[i].accession == groups[i].accession
              && r[i].locations == ParseCoordinates(queryLength, groups[i].coords)
  {
    seq(|groups|, i requires 0 <= i < |groups| =>
      ParsedHit(SecondField(groups[i].hitId, '|'), groups[i].accession, ParseCoordinates(queryLength, groups[i].coords)))
  }

  /**
   * What `parse_xml` records for the `i`-th hit: its accession; as identifier the second
   * `|` field of the hit id, `nil` when no non-empty field follows the first; and its locations
   * as `parse_coordinates` promises them.
   */
  lemma {:induction false} ParseHitsSpec(queryLength: int, groups: seq<HitGroup>, i: nat)
    requires i < |groups|
    ensures var h, g := ParseHits(queryLength, groups)[i], groups[i];
            && h.accession == g.accession
            && (h.id.Some? <==> exists k :: 1 <= k < |Fields(g.hitId, '|')| && Fields(g.hitId, '|')[k] != "")
            && (h.id.Some? ==> h.id.value == Fields(g.hitId, '|')[1] && '|' !in h.id.value)
            && SortedBy(h.locations.plus, Key) && SortedBy(h.locations.minus, Key)
            && (forall x :: x in h.locations.plus <==>
                  exists c :: c in g.coords && LongEnough(queryLength, c) && c.to > c.from && x == Range(c.from, c.to))
            && (forall x :: x in h.locations.minus <==>
                  exists c :: c in g.coords && LongEnough(queryLength, c) && c.to <= c.from && x == Range(c.to, c.from))
  {
    ParseCoordinatesSpec(queryLength, groups[i].coords);
  }

  /** For a GenBank identifier `gi|N|...` the recorded id is `N`, the number Entrez is asked for. */
  lemma {:induction false} ParseHitsGi(queryLength: int, groups: seq<HitGroup>, i: nat, n: string, rest: string)
    requires i < |groups| && groups[i].hitId == "gi|" + n + "|" + rest && '|' !in n && n != ""
    ensures ParseHits(queryLength, groups)[i].id == Some(n)
  {
    assert groups[i].hitId == "gi" + ['|'] + n + ['|'] + rest;
    SecondFieldOfPrefix("gi", n, '|', rest);
  }

  /** The test of `filter_array`: the upper range begins 4000 to 10000 nt after the lower one ends. */
  predicate ErvDistance(pair: (Range, Range))
  {
    ERV_DISTANCE_MIN <= pair.1.begin - pair.0.end <= ERV_DISTANCE_MAX
  }

  /** `filter_array`: every `(ranges[i], ranges[j])` with `i < j` whose distance is in range. */
  function FilterArray(ranges: seq<Range>): (r: seq<(Range, Range)>)
    ensures forall p :: p in r <==> ErvDistance(p) && exists i, j :: 0 <= i < j < |ranges| && p == (ranges[i], ranges[j])
  {
    PairsWhere(ErvDistance, ranges)
  }

  /** `hash.merge(ltr_pairs: ...)`: plus-strand pairs, then minus-strand pairs. */
  function WithPairs(h: ParsedHit): (r: PairedHit)
    ensures r.id == h.id && r.accession == h.accession && r.locations == h.locations
    ensures forall p :: p in r.ltrPairs <==> p in FilterArray(h.locations.plus) || p in FilterArray(h.locations.minus)
  {
    PairedHit(h.id, h.accession, h.locations, FilterArray(h.locations.plus) + FilterArray(h.locations.minus))
  }

  predicate HasPairs(h: PairedHit)
  {
    |h.ltrPairs| > 0
  }

  /** `filter`: every hit with its pairs merged in, dropping the hits left with none. */
  function FilterHits(hits: seq<ParsedHit>): seq<PairedHit>
  {
    Filter(HasPairs, AllWithPairs(hits))
  }

  function AllWithPairs(hits: seq<ParsedHit>): (r: seq<PairedHit>)
    ensures |r| == |hits| && forall i :: 0 <= i < |hits| ==> r[i] == WithPairs(hits[i])
  {
    seq(|hits|, i requires 0 <= i < |hits| => WithPairs(hits[i]))
  }

  /** Some two ranges of the list, the lower one first, are at ERV distance. */
  predicate HasErvPair(ranges: seq<Range>)
  {
    exists i, j :: 0 <= i < j < |ranges| && ErvDistance((ranges[i], ranges[j]))
  }

  /**
   * A hit survives `filter` exactly when some pair of ranges on one of its strands is at ERV
   * distance; the survivors keep their other fields, in input order.
   */
  lemma {:induction false} FilterHitsSpec(hits: seq<ParsedHit>)
    ensures |FilterHits(hits)| <= |hits|
    ensures forall h :: h in FilterHits(hits) ==> |h.ltrPairs| > 0
    ensures forall h :: h in FilterHits(hits) <==>
              exists i :: 0 <= i < |hits| && h == WithPairs(hits[i]) && |h.ltrPairs| > 0
    ensures forall i :: 0 <= i < |hits| ==>
              (WithPairs(hits[i]) in FilterHits(hits) <==>
                 HasErvPair(hits[i].locations.plus) || HasErvPair(hits[i].locations.minus))
  {
    FilterHitsMembers(hits);
    forall i | 0 <= i < |hits|
      ensures WithPairs(hits[i]) in FilterHits(hits) <==>
                HasErvPair(hits[i].locations.plus) || HasErvPair(hits[i].locations.minus)
    {
      PairsExist(hits[i]);
    }
  }

  lemma {:induction false} FilterHitsMembers(hits: seq<ParsedHit>)
    ensures forall h :: h in FilterHits(hits) <==>
              exists i :: 0 <= i < |hits| && h == WithPairs(hits[i]) && |h.ltrPairs| > 0
  {
    var all := AllWithPairs(hits);
    forall h ensures h in all <==> exists i :: 0 <= i < |hits| && h == WithPairs(hits[i]) {
      if h in all {
        var i :| 0 <= i < |all| && all[i] == h;
      }
      if exists i :: 0 <= i < |hits| && h == WithPairs(hits[i]) {
        var i :| 0 <= i < |hits| && h == WithPairs(hits[i]);
        assert all[i] == h;
      }
    }
  }

  lemma {:induction false} PairsExist(h: ParsedHit)
    ensures |WithPairs(h).ltrPairs| > 0 <==> HasErvPair(h.locations.plus) || HasErvPair(h.locations.minus)
  {
    FilterArrayNonEmpty(h.locations.plus);
    FilterArrayNonEmpty(h.locations.minus);
  }

  /** `filter_array` finds a pair exactly when there is one at ERV distance. */
  lemma {:induction false} FilterArrayNonEmpty(ranges: seq<Range>)
    ensures |FilterArray(ranges)| > 0 <==> HasErvPair(ranges)
  {
    if |FilterArray(ranges)| > 0 {
      FoundPairIsErv(ranges);
    }
    if HasErvPair(ranges) {
      ErvPairIsFound(ranges);
    }
  }

  /** A pair `filter_array` returns is at ERV distance. */
  lemma {:induction false} FoundPairIsErv(ranges: seq<Range>)
    requires |FilterArray(ranges)| > 0
    ensures HasErvPair(ranges)
  {
    var q := FilterArray(ranges)[0];
    assert q in FilterArray(ranges);
    var i, j :| 0 <= i < j < |ranges| && q == (ranges[i], ranges[j]);
    assert ErvDistance((ranges[i], ranges[j]));
  }

  /** A pair at ERV distance is among those `filter_array` returns. */
  lemma {:induction false} ErvPairIsFound(ranges: seq<Range>)
    requires HasErvPair(ranges)
    ensures |FilterArray(ranges)| > 0
  {
    var i, j :| 0 <= i < j < |ranges| && ErvDistance((ranges[i], ranges[j]));
    assert (ranges[i], ranges[j]) in FilterArray(ranges);
  }

  /** The two flanking windows of one pair. */
  function Flanks(id: Option<string>, pair: (Range, Range)): FlankingPair
  {
    FlankingPair(pair,
                 Window(id, pair.0.begin - FLANKING_DISTANCE, pair.0.begin - 1),
                 Window(id, pair.1.end + 1, pair.1.end + FLANKING_DISTANCE))
  }

  /** `flanking_pairs(id, pairs_array)`: what is fetched on either side of every pair. */
  function FlankingPairs(id: Option<string>, pairs: seq<(Range, Range)>): (r: seq<FlankingPair>)
    ensures |r| == |pairs| && forall i :: 0 <= i < |pairs| ==> r[i] == Flanks(id, pairs[i])
  {
    seq(|pairs|, i requires 0 <= i < |pairs| => Flanks(id, pairs[i]))
  }

  /** `flanking_regions!`: every surviving hit with the flanking windows of its pairs. */
  function FlankingRegions(hits: seq<ParsedHit>): (r: seq<(PairedHit, seq<FlankingPair>)>)
    ensures |r| == |FilterHits(hits)|
    ensures forall i :: 0 <= i < |r| ==> r[i] == (FilterHits(hits)[i], FlankingPairs(FilterHits(hits)[i].id, FilterHits(hits)[i].ltrPairs))
  {
    var kept := FilterHits(hits);
    seq(|kept|, i requires 0 <= i < |kept| => (kept[i], FlankingPairs(kept[i].id, kept[i].ltrPairs)))
  }

  /** `f` holds `pair` with a 5000 nt window of sequence `id` on either side of it. */
  predicate FlankedBy(f: FlankingPair, id: Option<string>, pair: (Range, Range))
  {
    && f.coordinates == pair
    && f.flanking5 == Window(id, pair.0.begin - FLANKING_DISTANCE, pair.0.begin - 1)
    && f.flanking3 == Window(id, pair.1.end + 1, pair.1.end + FLANKING_DISTANCE)
  }

  /**
   * `flanking_regions!` visits exactly the hits `filter` keeps, which are those with a pair at
   * ERV distance on one strand, and gives each of its pairs, in order, its two flanks.
   */
  lemma {:induction false} FlankingRegionsSpec(hits: seq<ParsedHit>)
    ensures forall i :: 0 <= i < |FlankingRegions(hits)| ==>
              var (h, flanks) := FlankingRegions(hits)[i];
              && h in FilterHits(hits)
              && |flanks| == |h.ltrPairs| > 0
              && forall k :: 0 <= k < |flanks| ==> FlankedBy(flanks[k], h.id, h.ltrPairs[k])
    ensures forall i :: 0 <= i < |hits| ==>
              ((exists j :: 0 <= j < |FlankingRegions(hits)| && FlankingRegions(hits)[j].0 == WithPairs(hits[i])) <==>
                 HasErvPair(hits[i].locations.plus) || HasErvPair(hits[i].locations.minus))
  {
    var r := FlankingRegions(hits);
    forall i | 0 <= i < |r|
      ensures var (h, flanks) := r[i];
              && h in FilterHits(hits)
              && |flanks| == |h.ltrPairs| > 0
              && forall k :: 0 <= k < |flanks| ==> FlankedBy(flanks[k], h.id, h.ltrPairs[k])
    {
      FlankingEntry(hits, i);
    }
    forall i | 0 <= i < |hits|
      ensures (exists j :: 0 <= j < |r| && r[j].0 == WithPairs(hits[i])) <==>
                HasErvPair(hits[i].locations.plus) || HasErvPair(hits[i].locations.minus)
    {
      FlankingCoverage(hits, i);
    }
  }

  /** The `i`-th entry of `flanking_regions!`: a kept hit, each of its pairs with its two flanks. */
  lemma {:induction false} FlankingEntry(hits: seq<ParsedHit>, i: nat)
    requires i < |FlankingRegions(hits)|
    ensures var (h, flanks) := FlankingRegions(hits)[i];
            && h in FilterHits(hits)
            && |flanks| == |h.ltrPairs| > 0
            && forall k :: 0 <= k < |flanks| ==> FlankedBy(flanks[k], h.id, h.ltrPairs[k])
  {
    var kept := FilterHits(hits);
    FilterHitsSpec(hits);
    assert FlankingRegions(hits)[i].0 == kept[i];
    assert kept[i] in kept;
  }

  /** A hit has an entry in `flanking_regions!` iff one of its strands has a pair at ERV distance. */
  lemma {:induction false} FlankingCoverage(hits: seq<ParsedHit>, i: nat)
    requires i < |hits|
    ensures (exists j :: 0 <= j < |FlankingRegions(hits)| && FlankingRegions(hits)[j].0 == WithPairs(hits[i])) <==>
              HasErvPair(hits[i].locations.plus) || HasErvPair(hits[i].locations.minus)
  {
    var r, kept := FlankingRegions(hits), FilterHits(hits);
    FilterHitsSpec(hits);
    if WithPairs(hits[i]) in kept {
      var j :| 0 <= j < |kept| && kept[j] == WithPairs(hits[i]);
      assert r[j].0 == kept[j];
    }
    if exists j :: 0 <= j < |r| && r[j].0 == WithPairs(hits[i]) {
      var j :| 0 <= j < |r| && r[j].0 == WithPairs(hits[i]);
      assert kept[j] in kept;
    }
  }

  /**
   * Each flank is exactly 5000 nt long (inclusive ends) and adjacent to the pair: the 5' flank
   * ends just before the first range begins, the 3' flank starts just after the last range ends.
   */
  lemma {:induction false} FlanksAdjacent(id: Option<string>, pairs: seq<(Range, Range)>, i: nat)
    requires i < |pairs|
    ensures var f := FlankingPairs(id, pairs)[i];
            && f.coordinates == pairs[i]
            && f.flanking5.stop - f.flanking5.start + 1 == FLANKING_DISTANCE
            && f.flanking3.stop - f.flanking3.start + 1 == FLANKING_DISTANCE
            && f.flanking5.stop + 1 == pairs[i].0.begin
            && f.flanking3.start == pairs[i].1.end + 1
            && f.flanking5.id == id && f.flanking3.id == id
  {
  }
}
