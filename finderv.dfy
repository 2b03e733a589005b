/**
 * The ERV finder proper: LTR candidates are the long-enough HSPs of each hit, sorted by
 * midpoint; putative ERVs are the pairs of LTRs of one hit and one strand whose gap lies in
 * 200..12000 nt; both lists are deduplicated by curation; solo LTRs are the curated LTRs that
 * are the same locus as no LTR of any putative ERV. The batch entry points concatenate the
 * per-report lists and curate once more.
 */
module Finderv {
  import opened Wrappers
  import opened Enumerable
  import opened Blast
  import opened Ltrs
  import PutativeErvs
  import opened Curation

  type PutativeErv = PutativeErvs.PutativeErv

  /** `ERV_DISTANCE = 200..12_000`. */
  const ERV_DISTANCE_MIN := 200
  const ERV_DISTANCE_MAX := 12000

  /** `hsp.align_len > report.query_len * 0.8`, in integers. */
  predicate LongEnough(queryLen: int, hsp: Hsp)
  {
    5 * hsp.alignLen > 4 * queryLen
  }

  /** The sort key of `sort_by(&:midpoint)`. */
  function Key(l: Ltr): int
  {
    l.MidpointKey()
  }

  function LtrsOf(hit: Hit, hsps: seq<Hsp>): (r: seq<Ltr>)
    ensures |r| == |hsps| && forall i :: 0 <= i < |hsps| ==> r[i] == Ltr(hit, hsps[i])
  {
    seq(|hsps|, i requires 0 <= i < |hsps| => Ltr(hit, hsps[i]))
  }

  /** Each HSP becomes an LTR of this hit, as often as it occurs. */
  lemma {:induction false} LtrsOfCount(hit: Hit, hsps: seq<Hsp>, l: Ltr)
    ensures multiset(LtrsOf(hit, hsps))[l] == if l.hit == hit then multiset(hsps)[l.hsp] else 0
  {
    if |hsps| > 0 {
      var head, tail := LtrsOf(hit, hsps[..1]), LtrsOf(hit, hsps[1..]);
      LtrsOfCount(hit, hsps[1..], l);
      assert LtrsOf(hit, hsps) == head + tail;
      assert multiset(LtrsOf(hit, hsps)) == multiset(head) + multiset(tail);
      assert head == [Ltr(hit, hsps[0])];
      assert hsps == hsps[..1] + hsps[1..];
      assert multiset(hsps) == multiset(hsps[..1]) + multiset(hsps[1..]);
      assert hsps[..1] == [hsps[0]];
    }
  }

  /** `parse_hsps` keeps every long-enough HSP of the hit as an LTR, as often as the report lists it, and nothing else. */
  lemma {:induction false} ParseHspsCounts(queryLen: int, hit: Hit, l: Ltr)
    ensures multiset(ParseHsps(queryLen, hit))[l] == if l.hit == hit && LongEnough(queryLen, l.hsp) then multiset(hit.hsps)[l.hsp] else 0
  {
    var long := (hsp: Hsp) => LongEnough(queryLen, hsp);
    var kept := Filter(long, hit.hsps);
    assert ParseHsps(queryLen, hit) == SortBy(LtrsOf(hit, kept), Key);
    LtrsOfCount(hit, kept, l);
    FilterCount(long, hit.hsps, l.hsp);
  }

  /** `parse_hsps`: one LTR per HSP longer than 80% of the query, sorted by midpoint. */
  function ParseHsps(queryLen: int, hit: Hit): (r: seq<Ltr>)
    ensures SortedBy(r, Key)
    ensures forall l :: l in r <==> l.hit == hit && l.hsp in hit.hsps && LongEnough(queryLen, l.hsp)
  {
    var kept := Filter((hsp: Hsp) => LongEnough(queryLen, hsp), hit.hsps);
    var ltrs := LtrsOf(hit, kept);
    var r := SortBy(ltrs, Key);

    assert forall l :: l in r <==> l in multiset(ltrs);
    assert forall l :: l in ltrs <==> l.hit == hit && l.hsp in kept by {
      forall l: Ltr | l.hit == hit && l.hsp in kept ensures l in ltrs {
        var i :| 0 <= i < |kept| && kept[i] == l.hsp;
        assert ltrs[i] == l;
      }
    }
    r
  }

  /** The gap condition of `find_ervs`: the 3' LTR starts 200 to 12000 nt after the 5' LTR ends. */
  predicate ErvDistance(pair: (Ltr, Ltr))
  {
    ERV_DISTANCE_MIN <= pair.1.UpCoord() - pair.0.DownCoord() <= ERV_DISTANCE_MAX
  }

  /** `PutativeErv.new(*pair)`. */
  function NewPair(pair: (Ltr, Ltr)): Result<PutativeErv, string>
  {
    PutativeErvs.New(pair.0, pair.1)
  }

  /** The pairs `find_ervs` keeps: every `(ltrs[i], ltrs[j])` with `i < j` whose gap is in range. */
  function ErvPairs(ltrs: seq<Ltr>): (r: seq<(Ltr, Ltr)>)
    ensures forall p :: p in r <==> ErvDistance(p) && exists i, j :: 0 <= i < j < |ltrs| && p == (ltrs[i], ltrs[j])
  {
    PairsWhere(ErvDistance, ltrs)
  }

  /** `find_ervs`: a putative ERV for every kept pair, in list order. */
  function FindErvs(ltrs: seq<Ltr>): Result<seq<PutativeErv>, string>
  {
    MapAll(NewPair, ErvPairs(ltrs))
  }

  /** A gap of at least 200 makes the 3' LTR's midpoint strictly larger, so the constructor keeps the pair's order. */
  lemma {:induction false} GapOrdersMidpoints(a: Ltr, b: Ltr)
    requires ErvDistance((a, b)) && PutativeErvs.Compatible(a, b)
    ensures Key(a) < Key(b)
    ensures PutativeErvs.New(a, b) == Ok(PutativeErvs.PutativeErv(a, b))
  {
  }

  /** Every LTR of the list may be paired with every other. */
  ghost predicate AllCompatible(ltrs: seq<Ltr>)
  {
    forall i, j :: 0 <= i < |ltrs| && 0 <= j < |ltrs| ==> PutativeErvs.Compatible(ltrs[i], ltrs[j])
  }

  /**
   * On a list of mutually compatible LTRs `find_ervs` never raises, and it yields the ERV
   * made of exactly the kept pairs, each with its 5' LTR first.
   */
  lemma {:induction false} FindErvsSpec(ltrs: seq<Ltr>)
    requires AllCompatible(ltrs)
    ensures FindErvs(ltrs).Ok?
    ensures forall e :: e in FindErvs(ltrs).value <==> (e.first, e.last) in ErvPairs(ltrs)
  {
    var pairs := ErvPairs(ltrs);
    KeptPairsBuild(ltrs);
    MapAllOfBuilt(pairs);
  }

  lemma {:induction false} KeptPairsBuild(ltrs: seq<Ltr>)
    requires AllCompatible(ltrs)
    ensures forall k :: 0 <= k < |ErvPairs(ltrs)| ==>
              NewPair(ErvPairs(ltrs)[k]) == Ok(PutativeErvs.PutativeErv(ErvPairs(ltrs)[k].0, ErvPairs(ltrs)[k].1))
  {
    var pairs := ErvPairs(ltrs);
    forall k | 0 <= k < |pairs| ensures NewPair(pairs[k]) == Ok(PutativeErvs.PutativeErv(pairs[k].0, pairs[k].1)) {
      assert pairs[k] in pairs;
      var i, j :| 0 <= i < j < |ltrs| && pairs[k] == (ltrs[i], ltrs[j]);
      assert PutativeErvs.Compatible(ltrs[i], ltrs[j]);
      GapOrdersMidpoints(ltrs[i], ltrs[j]);
    }
  }

  lemma {:induction false} MapAllOfBuilt(pairs: seq<(Ltr, Ltr)>)
    requires forall k :: 0 <= k < |pairs| ==> NewPair(pairs[k]) == Ok(PutativeErvs.PutativeErv(pairs[k].0, pairs[k].1))
    ensures MapAll(NewPair, pairs).Ok?
    ensures forall e :: e in MapAll(NewPair, pairs).value <==> (e.first, e.last) in pairs
  {
    var r := MapAll(NewPair, pairs);
    forall e ensures e in r.value <==> (e.first, e.last) in pairs {
      if e in r.value {
        var k :| 0 <= k < |r.value| && r.value[k] == e;
        assert pairs[k] == (e.first, e.last);
      }
      if (e.first, e.last) in pairs {
        var k :| 0 <= k < |pairs| && pairs[k] == (e.first, e.last);
        assert r.value[k] == e;
      }
    }
  }

  /** The LTRs of one hit on one strand may all be paired. */
  lemma {:induction false} OneStrandCompatible(ltrs: seq<Ltr>, hit: Hit, plus: bool)
    requires forall l :: l in ltrs ==> l.hit == hit && l.PlusStrand() == plus
    ensures AllCompatible(ltrs)
  {
    forall i, j | 0 <= i < |ltrs| && 0 <= j < |ltrs| ensures PutativeErvs.Compatible(ltrs[i], ltrs[j]) {
      assert ltrs[i] in ltrs && ltrs[j] in ltrs;
    }
  }

  function PlusLtrs(ltrs: seq<Ltr>): (r: seq<Ltr>)
    ensures forall l :: l in r <==> l in ltrs && l.PlusStrand()
  {
    Filter((l: Ltr) => l.PlusStrand(), ltrs)
  }

  function MinusLtrs(ltrs: seq<Ltr>): (r: seq<Ltr>)
    ensures forall l :: l in r <==> l in ltrs && l.MinusStrand()
  {
    Filter((l: Ltr) => l.MinusStrand(), ltrs)
  }

  /**
   * The ERVs of one sorted strand partition of a hit: each is built from two of its LTRs with
   * the gap in range and the 5' LTR first, and each such pair yields its ERV.
   */
  lemma {:induction false} PartitionErvs(part: seq<Ltr>, hit: Hit, plus: bool)
    requires forall l :: l in part ==> l.hit == hit && l.PlusStrand() == plus
    requires SortedBy(part, Key)
    ensures FindErvs(part).Ok?
    ensures forall e :: e in FindErvs(part).value ==>
              e.first in part && e.last in part && e.Valid() && ErvDistance((e.first, e.last)) && Key(e.first) < Key(e.last)
    ensures forall a, b :: a in part && b in part && ErvDistance((a, b)) ==> PutativeErvs.PutativeErv(a, b) in FindErvs(part).value
  {
    OneStrandCompatible(part, hit, plus);
    FindErvsSpec(part);
    var r := FindErvs(part).value;
    forall e | e in r
      ensures e.first in part && e.last in part && e.Valid() && ErvDistance((e.first, e.last)) && Key(e.first) < Key(e.last)
    {
      PartitionErvSound(part, e);
    }
    forall a, b | a in part && b in part && ErvDistance((a, b)) ensures PutativeErvs.PutativeErv(a, b) in r {
      PartitionErvComplete(part, hit, plus, a, b);
    }
  }

  lemma {:induction false} PartitionErvSound(part: seq<Ltr>, e: PutativeErv)
    requires AllCompatible(part) && FindErvs(part).Ok? && e in FindErvs(part).value
    ensures e.first in part && e.last in part && e.Valid() && ErvDistance((e.first, e.last)) && Key(e.first) < Key(e.last)
  {
    FindErvsSpec(part);
    assert (e.first, e.last) in ErvPairs(part);
    var i, j :| 0 <= i < j < |part| && (e.first, e.last) == (part[i], part[j]);
    assert part[i] in part && part[j] in part;
    GapOrdersMidpoints(e.first, e.last);
  }

  lemma {:induction false} PartitionErvComplete(part: seq<Ltr>, hit: Hit, plus: bool, a: Ltr, b: Ltr)
    requires forall l :: l in part ==> l.hit == hit && l.PlusStrand() == plus
    requires SortedBy(part, Key)
    requires a in part && b in part && ErvDistance((a, b))
    ensures FindErvs(part).Ok? && PutativeErvs.PutativeErv(a, b) in FindErvs(part).value
  {
    OneStrandCompatible(part, hit, plus);
    GapOrdersMidpoints(a, b);
    PairKept(part, a, b);
    FindErvsSpec(part);
    var e := PutativeErvs.PutativeErv(a, b);
    assert (e.first, e.last) in ErvPairs(part);
  }

  /** In a list sorted by midpoint, two LTRs at ERV distance appear in that order, so their pair is kept. */
  lemma {:induction false} PairKept(part: seq<Ltr>, a: Ltr, b: Ltr)
    requires SortedBy(part, Key)
    requires a in part && b in part && ErvDistance((a, b)) && Key(a) < Key(b)
    ensures (a, b) in ErvPairs(part)
  {
    var i :| 0 <= i < |part| && part[i] == a;
    var j :| 0 <= j < |part| && part[j] == b;
    assert 0 <= i < j < |part| && (a, b) == (part[i], part[j]);
  }

  /** The putative ERVs of one hit: `find_ervs` over each strand partition, plus strand first. */
  function PutativeErvsOfHit(queryLen: int, hit: Hit): seq<PutativeErv>
  {
    var ltrs := ParseHsps(queryLen, hit);
    PartitionsBuild(queryLen, hit);
    FindErvs(PlusLtrs(ltrs)).value + FindErvs(MinusLtrs(ltrs)).value
  }

  /** Within one hit and one strand the constructor never raises. */
  lemma {:induction false} PartitionsBuild(queryLen: int, hit: Hit)
    ensures FindErvs(PlusLtrs(ParseHsps(queryLen, hit))).Ok?
    ensures FindErvs(MinusLtrs(ParseHsps(queryLen, hit))).Ok?
  {
    var ltrs := ParseHsps(queryLen, hit);
    OneStrandCompatible(PlusLtrs(ltrs), hit, true);
    OneStrandCompatible(MinusLtrs(ltrs), hit, false);
    FindErvsSpec(PlusLtrs(ltrs));
    FindErvsSpec(MinusLtrs(ltrs));
  }

  /**
   * Every ERV of a hit is built from two long-enough HSPs of that hit on one strand with the
   * gap in range, the 5' LTR first; and every such pair of LTRs yields its ERV.
   */
  lemma {:induction false} PutativeErvsOfHitSpec(queryLen: int, hit: Hit)
    ensures forall e :: e in PutativeErvsOfHit(queryLen, hit) ==>
              && e.first in ParseHsps(queryLen, hit) && e.last in ParseHsps(queryLen, hit)
              && e.Valid() && ErvDistance((e.first, e.last)) && Key(e.first) < Key(e.last)
    ensures forall a, b ::
              (a in ParseHsps(queryLen, hit) && b in ParseHsps(queryLen, hit) && a.PlusStrand() == b.PlusStrand() && ErvDistance((a, b))) ==>
              PutativeErvs.PutativeErv(a, b) in PutativeErvsOfHit(queryLen, hit)
  {
    var ltrs := ParseHsps(queryLen, hit);
    FilterKeepsSorted((l: Ltr) => l.PlusStrand(), ltrs, Key);
    FilterKeepsSorted((l: Ltr) => l.MinusStrand(), ltrs, Key);
    PartitionErvs(PlusLtrs(ltrs), hit, true);
    PartitionErvs(MinusLtrs(ltrs), hit, false);
  }

  /** A built ERV spans its two LTRs and the gap between them, so it is at least 201 nt long. */
  lemma {:induction false} ErvLength(e: PutativeErv)
    requires ErvDistance((e.first, e.last))
    ensures e.Length() == e.first.Length() + (e.last.UpCoord() - e.first.DownCoord()) + e.last.Length() - 1
    ensures e.Length() >= ERV_DISTANCE_MIN + 1
  {
    CoordsOrdered(e.first);
    CoordsOrdered(e.last);
  }

  // ---------------------------------------------------------------------------------------
  // One report
  // ---------------------------------------------------------------------------------------

  /** `reject { |hit| hit.definition =~ ignore_regex if ignore_regex }`: kept unless a given pattern matches. */
  predicate Kept(ignore: Option<string -> bool>, hit: Hit)
  {
    ignore.None? || !ignore.value(hit.definition)
  }

  function KeptHits(report: Report, ignore: Option<string -> bool>): (r: seq<Hit>)
    ensures forall h :: h in r <==> h in report.hits && Kept(ignore, h)
  {
    Filter((h: Hit) => Kept(ignore, h), report.hits)
  }

  /** `map { |hit| parse_hsps(hit) }` over the kept hits. */
  function LtrsPerHit(report: Report, ignore: Option<string -> bool>): (r: seq<seq<Ltr>>)
    ensures |r| == |KeptHits(report, ignore)|
    ensures forall i :: 0 <= i < |r| ==> r[i] == ParseHsps(report.queryLen, KeptHits(report, ignore)[i])
  {
    var hits := KeptHits(report, ignore);
    seq(|hits|, i requires 0 <= i < |hits| => ParseHsps(report.queryLen, hits[i]))
  }

  /** The LTRs of every kept hit, flattened, before curation. */
  function LtrCandidates(report: Report, ignore: Option<string -> bool>): seq<Ltr>
  {
    Concat(LtrsPerHit(report, ignore))
  }

  /** `filtered_ltrs(ignore_regex)`. */
  function FilteredLtrs(report: Report, ignore: Option<string -> bool>): seq<Ltr>
  {
    Curate(LtrCandidates(report, ignore), Ltrs.Same, Ltrs.Len)
  }

  /** The putative ERVs of each hit, in hit order. */
  function ErvsPerHit(report: Report): (r: seq<seq<PutativeErv>>)
    ensures |r| == |report.hits|
    ensures forall i :: 0 <= i < |r| ==> r[i] == PutativeErvsOfHit(report.queryLen, report.hits[i])
  {
    var hits := report.hits;
    seq(|hits|, i requires 0 <= i < |hits| => PutativeErvsOfHit(report.queryLen, hits[i]))
  }

  /** The putative ERVs of every hit, flattened, before curation. */
  function ErvCandidates(report: Report): seq<PutativeErv>
  {
    Concat(ErvsPerHit(report))
  }

  /** `putative_ervs`. */
  function PutativeErvsOf(report: Report): seq<PutativeErv>
  {
    Curate(ErvCandidates(report), PutativeErvs.Same, PutativeErvs.Len)
  }

  /**
   * Every filtered LTR comes from a long-enough HSP of a hit of the report that the ignore
   * pattern does not match; a hit the pattern matches contributes nothing, and with no
   * pattern every hit is considered. Curation never lengthens the list.
   */
  lemma {:induction false} FilteredLtrsSpec(report: Report, ignore: Option<string -> bool>)
    ensures |FilteredLtrs(report, ignore)| <= |LtrCandidates(report, ignore)|
    ensures forall l :: l in FilteredLtrs(report, ignore) ==>
              l.hit in report.hits && Kept(ignore, l.hit) && l.hsp in l.hit.hsps && LongEnough(report.queryLen, l.hsp)
    ensures forall l :: l in LtrCandidates(report, ignore) <==>
              l.hit in report.hits && Kept(ignore, l.hit) && l.hsp in l.hit.hsps && LongEnough(report.queryLen, l.hsp)
  {
    LtrCandidatesSpec(report, ignore);
    CurateWithin(LtrCandidates(report, ignore), Ltrs.Same, Ltrs.Len);
  }

  lemma {:induction false} LtrCandidatesSpec(report: Report, ignore: Option<string -> bool>)
    ensures forall l :: l in LtrCandidates(report, ignore) <==>
              l.hit in report.hits && Kept(ignore, l.hit) && l.hsp in l.hit.hsps && LongEnough(report.queryLen, l.hsp)
  {
    var hits := KeptHits(report, ignore);
    var parts := LtrsPerHit(report, ignore);
    forall l: Ltr ensures l in Concat(parts) <==>
      l.hit in report.hits && Kept(ignore, l.hit) && l.hsp in l.hit.hsps && LongEnough(report.queryLen, l.hsp)
    {
      if l.hit in report.hits && Kept(ignore, l.hit) && l.hsp in l.hit.hsps && LongEnough(report.queryLen, l.hsp) {
        var i :| 0 <= i < |hits| && hits[i] == l.hit;
        assert l in parts[i];
      }
    }
  }

  /** Every curated ERV was built within one hit of the report, with its gap in range. */
  lemma {:induction false} PutativeErvsOfSpec(report: Report)
    ensures |PutativeErvsOf(report)| <= |ErvCandidates(report)|
    ensures forall e :: e in PutativeErvsOf(report) ==>
              && e.first.hit in report.hits && e.first.hit == e.last.hit
              && e.first.hsp in e.first.hit.hsps && e.last.hsp in e.last.hit.hsps
              && LongEnough(report.queryLen, e.first.hsp) && LongEnough(report.queryLen, e.last.hsp)
              && e.Valid() && ErvDistance((e.first, e.last))
  {
    CurateRepresentatives(ErvCandidates(report), PutativeErvs.Same, PutativeErvs.Len);
    var r := PutativeErvsOf(report);
    forall e | e in r
      ensures && e.first.hit in report.hits && e.first.hit == e.last.hit
              && e.first.hsp in e.first.hit.hsps && e.last.hsp in e.last.hit.hsps
              && LongEnough(report.queryLen, e.first.hsp) && LongEnough(report.queryLen, e.last.hsp)
              && e.Valid() && ErvDistance((e.first, e.last))
    {
      var g :| 0 <= g < |r| && r[g] == e;
      ErvCandidateSpec(report, e);
    }
  }

  lemma {:induction false} ErvCandidateSpec(report: Report, e: PutativeErv)
    requires e in ErvCandidates(report)
    ensures && e.first.hit in report.hits && e.first.hit == e.last.hit
            && e.first.hsp in e.first.hit.hsps && e.last.hsp in e.last.hit.hsps
            && LongEnough(report.queryLen, e.first.hsp) && LongEnough(report.queryLen, e.last.hsp)
            && e.Valid() && ErvDistance((e.first, e.last))
  {
    var parts := ErvsPerHit(report);
    assert e in Concat(parts);
    var i :| 0 <= i < |parts| && e in parts[i];
    PutativeErvsOfHitSpec(report.queryLen, report.hits[i]);
  }

  // ---------------------------------------------------------------------------------------
  // Solo LTRs
  // ---------------------------------------------------------------------------------------

  /** `putative_ervs.map(&:ltrs)`, flattened. */
  function ErvLtrs(ervs: seq<PutativeErv>): (r: seq<Ltr>)
    ensures forall l :: l in r <==> exists e :: e in ervs && (l == e.first || l == e.last)
  {
    var parts := seq(|ervs|, i requires 0 <= i < |ervs| => ervs[i].Ltrs());
    var r := Concat(parts);
    assert forall e :: e in ervs ==> e.first in r && e.last in r by {
      forall e | e in ervs ensures e.first in r && e.last in r {
        var i :| 0 <= i < |ervs| && ervs[i] == e;
        assert e.first in parts[i] && e.last in parts[i];
      }
    }
    r
  }

  /** `ervs.include?(ltr)`: some element answers `==` with `ltr`. */
  predicate Includes(ltrs: seq<Ltr>, l: Ltr)
  {
    exists i :: 0 <= i < |ltrs| && ltrs[i].SameLocus(l)
  }

  /** The filtered LTRs that are the same locus as no LTR of any of the given ERVs. */
  function SoloOf(ervs: seq<PutativeErv>, filtered: seq<Ltr>): (r: seq<Ltr>)
    ensures |r| <= |filtered|
    ensures forall l :: l in r <==>
              l in filtered && forall e :: e in ervs ==> !e.first.SameLocus(l) && !e.last.SameLocus(l)
  {
    var ervLtrs := ErvLtrs(ervs);
    var r := Filter((l: Ltr) => !Includes(ervLtrs, l), filtered);
    assert forall l :: Includes(ervLtrs, l) <==> exists e :: e in ervs && (e.first.SameLocus(l) || e.last.SameLocus(l)) by {
      forall l ensures Includes(ervLtrs, l) <==> exists e :: e in ervs && (e.first.SameLocus(l) || e.last.SameLocus(l)) {
        if Includes(ervLtrs, l) {
          var i :| 0 <= i < |ervLtrs| && ervLtrs[i].SameLocus(l);
          assert ervLtrs[i] in ervLtrs;
        }
        if exists e :: e in ervs && (e.first.SameLocus(l) || e.last.SameLocus(l)) {
          var e :| e in ervs && (e.first.SameLocus(l) || e.last.SameLocus(l));
          var m := if e.first.SameLocus(l) then e.first else e.last;
          assert m in ervLtrs;
          var i :| 0 <= i < |ervLtrs| && ervLtrs[i] == m;
        }
      }
    }
    r
  }

  /**
   * `solo_ltrs` as written: `inject(&:concat)` of an empty list of ERVs is `nil`, and
   * `nil.include?` raises as soon as there is a filtered LTR to test.
   */
  function SoloLtrsAsWritten(ervs: seq<PutativeErv>, filtered: seq<Ltr>): (r: Result<seq<Ltr>, string>)
    ensures r.Err? <==> |ervs| == 0 && |filtered| > 0
    ensures r.Ok? ==> r.value == SoloOf(ervs, filtered)
  {
    if |ervs| == 0 && |filtered| > 0 then Err("undefined method `include?' for nil:NilClass")
    else Ok(SoloOf(ervs, filtered))
  }

  /** `solo_ltrs(ignore_regex)`, with an empty list of ERVs rejecting nothing. */
  function SoloLtrs(report: Report, ignore: Option<string -> bool>): seq<Ltr>
  {
    SoloOf(PutativeErvsOf(report), FilteredLtrs(report, ignore))
  }

  /** Where the code as written does not raise, it agrees with the corrected definition. */
  lemma {:induction false} SoloLtrsAgree(report: Report, ignore: Option<string -> bool>)
    ensures var r := SoloLtrsAsWritten(PutativeErvsOf(report), FilteredLtrs(report, ignore));
            r.Ok? ==> r.value == SoloLtrs(report, ignore)
    ensures |PutativeErvsOf(report)| > 0 ==> SoloLtrsAsWritten(PutativeErvsOf(report), FilteredLtrs(report, ignore)).Ok?
  {
  }

  /**
   * A report whose only hit has a single long-enough HSP has one filtered LTR and no putative
   * ERV, so `solo_ltrs` as written raises while the corrected one returns that LTR.
   */
  lemma {:induction false} SoloLtrsRaisesWithoutErvs(report: Report, hit: Hit, hsp: Hsp)
    requires report.hits == [hit] && hit.hsps == [hsp] && LongEnough(report.queryLen, hsp)
    ensures SoloLtrsAsWritten(PutativeErvsOf(report), FilteredLtrs(report, None)).Err?
    ensures SoloLtrs(report, None) == [Ltr(hit, hsp)]
  {
    var l := Ltr(hit, hsp);
    SingleHspFiltered(report, hit, hsp);
    SingleHspNoCuratedErvs(report, hit, hsp);
    SoloWithoutErvs(l);
  }

  lemma {:induction false} SingleHspFiltered(report: Report, hit: Hit, hsp: Hsp)
    requires report.hits == [hit] && hit.hsps == [hsp] && LongEnough(report.queryLen, hsp)
    ensures FilteredLtrs(report, None) == [Ltr(hit, hsp)]
  {
    SingleHspCandidates(report, hit, hsp);
    SingletonCurated(Ltr(hit, hsp));
  }

  lemma {:induction false} SingleHspNoCuratedErvs(report: Report, hit: Hit, hsp: Hsp)
    requires report.hits == [hit] && hit.hsps == [hsp] && LongEnough(report.queryLen, hsp)
    ensures PutativeErvsOf(report) == []
  {
    SingleHspNoErvs(report, hit, hsp);
    CurateEmpty(PutativeErvs.Same, PutativeErvs.Len);
  }

  lemma {:induction false} CurateEmpty<T>(same: (T, T) -> bool, len: T -> int)
    ensures Curate([], same, len) == []
  {
    assert Group<T>([], same) == [];
  }

  /** With no ERVs nothing is rejected. */
  lemma {:induction false} SoloWithoutErvs(l: Ltr)
    ensures SoloOf([], [l]) == [l]
  {
    assert ErvLtrs([]) == [];
    assert [l][1..] == [];
  }

  lemma {:induction false} SingleHspCandidates(report: Report, hit: Hit, hsp: Hsp)
    requires report.hits == [hit] && hit.hsps == [hsp] && LongEnough(report.queryLen, hsp)
    ensures LtrCandidates(report, None) == [Ltr(hit, hsp)]
  {
    var l := Ltr(hit, hsp);
    SingleHspParses(report.queryLen, hit, hsp);
    assert KeptHits(report, None) == [hit] by {
      assert [hit][1..] == [];
    }
    ConcatOfOne(LtrsPerHit(report, None));
  }

  lemma {:induction false} SingleHspNoErvs(report: Report, hit: Hit, hsp: Hsp)
    requires report.hits == [hit] && hit.hsps == [hsp] && LongEnough(report.queryLen, hsp)
    ensures ErvCandidates(report) == []
  {
    SingleHspParses(report.queryLen, hit, hsp);
    SingleLtrNoErvs(report.queryLen, hit, Ltr(hit, hsp));
    ConcatOfOne(ErvsPerHit(report));
  }

  lemma {:induction false} ConcatOfOne<T(!new)>(parts: seq<seq<T>>)
    requires |parts| == 1
    ensures Concat(parts) == parts[0]
  {
    assert Concat(parts) == parts[0] + Concat(parts[1..]);
    assert parts[1..] == [];
  }

  lemma {:induction false} SingletonCurated(l: Ltr)
    ensures Curate([l], Ltrs.Same, Ltrs.Len) == [l]
  {
    assert [l][..0] == [];
    assert Group([l], Ltrs.Same) == [[l]];
  }

  lemma {:induction false} SingleLtrNoErvs(queryLen: int, hit: Hit, l: Ltr)
    requires ParseHsps(queryLen, hit) == [l]
    ensures PutativeErvsOfHit(queryLen, hit) == []
  {
    PairsOfAtMostOne(PlusLtrs([l]));
    PairsOfAtMostOne(MinusLtrs([l]));
  }

  /** Fewer than two LTRs make no pair. */
  lemma {:induction false} PairsOfAtMostOne(ltrs: seq<Ltr>)
    requires |ltrs| <= 1
    ensures ErvPairs(ltrs) == []
  {
    CombinationsCount(ltrs);
  }

  /** A hit with one long-enough HSP parses to its one LTR. */
  lemma {:induction false} SingleHspParses(queryLen: int, hit: Hit, hsp: Hsp)
    requires hit.hsps == [hsp] && LongEnough(queryLen, hsp)
    ensures ParseHsps(queryLen, hit) == [Ltr(hit, hsp)]
  {
    var kept := Filter((h: Hsp) => LongEnough(queryLen, h), hit.hsps);
    assert [hsp][1..] == [];
    assert kept == [hsp];
    assert LtrsOf(hit, kept) == [Ltr(hit, hsp)];
    assert [Ltr(hit, hsp)][1..] == [];
  }

  // ---------------------------------------------------------------------------------------
  // Batches
  // ---------------------------------------------------------------------------------------

  /** `putative_ervs_from_batch`: the curated ERVs of every report, concatenated and curated again; an empty batch raises. */
  function PutativeErvsFromBatch(reports: seq<Report>): (r: Option<seq<PutativeErv>>)
    ensures r.None? <==> |reports| == 0
  {
    if |reports| == 0 then None
    else Some(Curate(Concat(seq(|reports|, i requires 0 <= i < |reports| => PutativeErvsOf(reports[i]))),
                     PutativeErvs.Same, PutativeErvs.Len))
  }

  /** `solo_ltrs_from_batch`: the solo LTRs of every report, concatenated and curated again; an empty batch raises. */
  function SoloLtrsFromBatch(reports: seq<Report>, ignore: Option<string -> bool>): (r: Option<seq<Ltr>>)
    ensures r.None? <==> |reports| == 0
  {
    if |reports| == 0 then None
    else Some(Curate(Concat(seq(|reports|, i requires 0 <= i < |reports| => SoloLtrs(reports[i], ignore))),
                     Ltrs.Same, Ltrs.Len))
  }

  /**
   * `solo_ltrs_from_batch` as written: the `map` raises at the first report whose
   * `solo_ltrs` raises, and an empty batch leaves `inject` with `nil` to curate. Where it
   * returns, it agrees with the corrected definition.
   */
  function SoloLtrsFromBatchAsWritten(reports: seq<Report>, ignore: Option<string -> bool>): (r: Result<seq<Ltr>, string>)
    ensures r.Err? <==> |reports| == 0 ||
                        exists i :: 0 <= i < |reports| && SoloLtrsAsWritten(PutativeErvsOf(reports[i]), FilteredLtrs(reports[i], ignore)).Err?
    ensures r.Ok? ==> SoloLtrsFromBatch(reports, ignore) == Some(r.value)
  {
    match MapAll((rep: Report) => SoloLtrsAsWritten(PutativeErvsOf(rep), FilteredLtrs(rep, ignore)), reports)
    case Err(e) => Err(e)
    case Ok(parts) =>
      if |parts| == 0 then Err("undefined method `inject' for nil:NilClass")
      else
        SoloPartsAgree(reports, ignore, parts);
        Ok(Curate(Concat(parts), Ltrs.Same, Ltrs.Len))
  }

  lemma {:induction false} SoloPartsAgree(reports: seq<Report>, ignore: Option<string -> bool>, parts: seq<seq<Ltr>>)
    requires |parts| == |reports|
    requires forall k :: 0 <= k < |reports| ==> SoloLtrsAsWritten(PutativeErvsOf(reports[k]), FilteredLtrs(reports[k], ignore)) == Ok(parts[k])
    ensures parts == seq(|reports|, i requires 0 <= i < |reports| => SoloLtrs(reports[i], ignore))
  {
    forall i | 0 <= i < |reports| ensures parts[i] == SoloLtrs(reports[i], ignore) {
      SoloLtrsAgree(reports[i], ignore);
    }
  }

  /** A one-report batch whose report holds one long-enough HSP raises as written; the corrected batch returns its LTR. */
  lemma {:induction false} SoloBatchRaisesWithoutErvs(report: Report, hit: Hit, hsp: Hsp)
    requires report.hits == [hit] && hit.hsps == [hsp] && LongEnough(report.queryLen, hsp)
    ensures SoloLtrsFromBatchAsWritten([report], None).Err?
    ensures SoloLtrsFromBatch([report], None) == Some([Ltr(hit, hsp)])
  {
    SoloLtrsRaisesWithoutErvs(report, hit, hsp);
    assert [report][0] == report;
    SoloBatchOfOne(report, None);
    SingletonCurated(Ltr(hit, hsp));
  }

  lemma {:induction false} SoloBatchOfOne(report: Report, ignore: Option<string -> bool>)
    ensures SoloLtrsFromBatch([report], ignore) == Some(Curate(SoloLtrs(report, ignore), Ltrs.Same, Ltrs.Len))
  {
    var parts := seq(1, i requires 0 <= i < 1 => SoloLtrs([report][i], ignore));
    assert parts == [SoloLtrs(report, ignore)];
    ConcatOfOne(parts);
  }

  /** A batch curates once over the concatenation: each resulting ERV comes from one report's list. */
  lemma {:induction false} PutativeErvsFromBatchSpec(reports: seq<Report>)
    requires |reports| > 0
    ensures forall e :: e in PutativeErvsFromBatch(reports).value ==> exists i :: 0 <= i < |reports| && e in PutativeErvsOf(reports[i])
  {
    var parts := seq(|reports|, i requires 0 <= i < |reports| => PutativeErvsOf(reports[i]));
    CurateOfConcat(parts, PutativeErvs.Same, PutativeErvs.Len);
  }

  /** Likewise each resulting solo LTR comes from one report's solo LTRs. */
  lemma {:induction false} SoloLtrsFromBatchSpec(reports: seq<Report>, ignore: Option<string -> bool>)
    requires |reports| > 0
    ensures forall l :: l in SoloLtrsFromBatch(reports, ignore).value ==> exists i :: 0 <= i < |reports| && l in SoloLtrs(reports[i], ignore)
  {
    var parts := seq(|reports|, i requires 0 <= i < |reports| => SoloLtrs(reports[i], ignore));
    CurateOfConcat(parts, Ltrs.Same, Ltrs.Len);
  }

  // ---------------------------------------------------------------------------------------
  // Curation is not idempotent
  // ---------------------------------------------------------------------------------------

  /**
   * Three LTRs 150 nt apart in a row: the first two are grouped and the longer second one
   * kept, the third opens its own group; curating the result again merges those two.
   */
  lemma {:induction false} CurationNotIdempotent()
    ensures var h := Hit("gi|1|", "X", "d", []);
            var a := Ltr(h, Hsp(1000, 2000, 1, 1, 0));
            var b := Ltr(h, Hsp(1150, 2190, 1, 1, 0));
            var c := Ltr(h, Hsp(1300, 2380, 1, 1, 0));
            && Curate([a, b, c], Ltrs.Same, Ltrs.Len) == [b, c]
            && Curate(Curate([a, b, c], Ltrs.Same, Ltrs.Len), Ltrs.Same, Ltrs.Len) == [c]
  {
    var h := Hit("gi|1|", "X", "d", []);
    ChainCurated(Ltr(h, Hsp(1000, 2000, 1, 1, 0)), Ltr(h, Hsp(1150, 2190, 1, 1, 0)), Ltr(h, Hsp(1300, 2380, 1, 1, 0)));
  }

  /** The same three LTRs with the first two swapped curate to one element instead of two. */
  lemma {:induction false} CurationOrderDependent()
    ensures var h := Hit("gi|1|", "X", "d", []);
            var a := Ltr(h, Hsp(1000, 2000, 1, 1, 0));
            var b := Ltr(h, Hsp(1150, 2190, 1, 1, 0));
            var c := Ltr(h, Hsp(1300, 2380, 1, 1, 0));
            && Curate([a, b, c], Ltrs.Same, Ltrs.Len) == [b, c]
            && Curate([b, a, c], Ltrs.Same, Ltrs.Len) == [c]
  {
    var h := Hit("gi|1|", "X", "d", []);
    ChainCurated(Ltr(h, Hsp(1000, 2000, 1, 1, 0)), Ltr(h, Hsp(1150, 2190, 1, 1, 0)), Ltr(h, Hsp(1300, 2380, 1, 1, 0)));
  }

  /**
   * A chain `a ~ b ~ c` with `a` and `c` apart and lengths growing along it: in the order
   * `a, b, c` two groups survive, in the order `b, a, c` everything joins `b`'s group.
   */
  lemma {:induction false} ChainCurated(a: Ltr, b: Ltr, c: Ltr)
    requires Ltrs.Same(a, b) && Ltrs.Same(b, c) && !Ltrs.Same(a, c)
    requires a.Length() < b.Length() < c.Length()
    ensures Curate([a, b, c], Ltrs.Same, Ltrs.Len) == [b, c]
    ensures Curate([b, c], Ltrs.Same, Ltrs.Len) == [c]
    ensures Curate([b, a, c], Ltrs.Same, Ltrs.Len) == [c]
  {
    ChainInOrder(a, b, c);
    PairCurated(b, c);
    ChainSwapped(a, b, c);
  }

  lemma {:induction false} ChainInOrder(a: Ltr, b: Ltr, c: Ltr)
    requires Ltrs.Same(a, b) && !Ltrs.Same(a, c) && a.Length() < b.Length()
    ensures Curate([a, b, c], Ltrs.Same, Ltrs.Len) == [b, c]
  {
    GroupPair(a, b);
    assert [a, b, c][..2] == [a, b];
    assert FirstMatch([[a, b]], c, Ltrs.Same) == 1;
    assert Group([a, b, c], Ltrs.Same) == [[a, b], [c]];
    assert Longest([a, b], Ltrs.Len) == b by {
      assert [a, b][..1] == [a];
    }
  }

  /** Two same-locus LTRs curate to the longer one. */
  lemma {:induction false} PairCurated(b: Ltr, c: Ltr)
    requires Ltrs.Same(b, c) && b.Length() < c.Length()
    ensures Curate([b, c], Ltrs.Same, Ltrs.Len) == [c]
  {
    GroupPair(b, c);
    assert Longest([b, c], Ltrs.Len) == c by {
      assert [b, c][..1] == [b];
    }
  }

  lemma {:induction false} ChainSwapped(a: Ltr, b: Ltr, c: Ltr)
    requires Ltrs.Same(a, b) && Ltrs.Same(b, c) && a.Length() < b.Length() < c.Length()
    ensures Curate([b, a, c], Ltrs.Same, Ltrs.Len) == [c]
  {
    SameLocusIff(a, b);
    GroupPair(b, a);
    assert [b, a, c][..2] == [b, a];
    assert FirstMatch([[b, a]], c, Ltrs.Same) == 0;
    assert [b, a] + [c] == [b, a, c];
    assert [[b, a]][0 := [b, a, c]] == [[b, a, c]];
    assert Place([[b, a]], c, Ltrs.Same) == [[b, a, c]];
    assert Group([b, a, c], Ltrs.Same) == [[b, a, c]];
    assert Longest([b, a, c], Ltrs.Len) == c by {
      assert [b, a, c][..2] == [b, a];
      assert [b, a][..1] == [b];
    }
  }

  lemma {:induction false} GroupPair(x: Ltr, y: Ltr)
    requires Ltrs.Same(x, y)
    ensures Group([x, y], Ltrs.Same) == [[x, y]]
  {
    assert [x, y][..1] == [x];
    assert [x][..0] == [];
    assert Group([x], Ltrs.Same) == [[x]];
    assert FirstMatch([[x]], y, Ltrs.Same) == 0;
    assert [x] + [y] == [x, y];
    assert [[x]][0 := [x, y]] == [[x, y]];
    assert Place([[x]], y, Ltrs.Same) == [[x, y]];
    assert Group([x, y], Ltrs.Same) == Place(Group([x], Ltrs.Same), y, Ltrs.Same);
  }
}
