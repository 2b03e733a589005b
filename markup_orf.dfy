/**
 * ORF location and the annotation list of an ERV sequence. The three forward reading-frame
 * translations are given; a peptide is located by its first occurrence in each frame, the ORF
 * from there runs to the first stop (`*`), and its nucleotide span is derived from the frame
 * and the amino-acid offset. Annotations are (position, text) pairs kept sorted.
 */
module MarkupOrf {
  import opened Wrappers
  import opened RubyCore
  import opened Enumerable

  // ---------------------------------------------------------------------------------------
  // Locating a peptide and its ORF
  // ---------------------------------------------------------------------------------------

  /** `sequence.index(substring.upcase)` in frame `f`. */
  function FrameIndex(frames: seq<string>, sub: string, f: nat): (r: Option<nat>)
    requires |frames| == 3 && 1 <= f <= 3
    ensures r.Some? ==> r.value + |sub| <= |frames[f - 1]|
  {
    Index(frames[f - 1], Upcase(sub))
  }

  /** `{ frame => sequence.index(substring.upcase) }` for the frames `f..3`, dropping the frames without a match. */
  function LocateFrom(frames: seq<string>, sub: string, f: nat): (r: seq<(nat, nat)>)
    requires |frames| == 3 && 1 <= f <= 4
    ensures forall p :: p in r <==> f <= p.0 <= 3 && FrameIndex(frames, sub, p.0) == Some(p.1)
    ensures forall i :: 0 <= i < |r| ==> f <= r[i].0 <= 3 && FrameIndex(frames, sub, r[i].0) == Some(r[i].1)
    ensures forall i, j :: 0 <= i < j < |r| ==> r[i].0 < r[j].0
    decreases 4 - f
  {
    if f == 4 then []
    else
      var rest := LocateFrom(frames, sub, f + 1);
      match FrameIndex(frames, sub, f)
      case None => rest
      case Some(k) => [(f, k)] + rest
  }

  /**
   * `locate_aa(substring)`: `(frame, offset)` for each frame 1..3, in frame order, in which the
   * upcased peptide occurs, at its first occurrence; the frames without one are absent.
   */
  function LocateAa(frames: seq<string>, sub: string): (r: seq<(nat, nat)>)
    requires |frames| == 3
    ensures forall p :: p in r <==> 1 <= p.0 <= 3 && FrameIndex(frames, sub, p.0) == Some(p.1)
    ensures forall i :: 0 <= i < |r| ==> 1 <= r[i].0 <= 3 && FrameIndex(frames, sub, r[i].0) == Some(r[i].1)
    ensures forall i, j :: 0 <= i < j < |r| ==> r[i].0 < r[j].0
  {
    LocateFrom(frames, sub, 1)
  }

  /** `orf` is the shortest prefix of `s` that ends in a stop. */
  predicate ShortestStop(s: string, orf: string)
  {
    orf <= s && |orf| > 0 && orf[|orf| - 1] == '*' && '*' !in orf[..|orf| - 1]
  }

  /** The match of `^.*?\*` in `s`: everything up to and including the first stop, `nil` when there is none. */
  function StopPrefix(s: string): (r: Option<string>)
    ensures r.Some? <==> '*' in s
    ensures r.Some? ==> ShortestStop(s, r.value)
  {
    if |s| == 0 then None
    else if s[0] == '*' then Some("*")
    else
      match StopPrefix(s[1..])
      case None => None
      case Some(p) =>
        assert s == [s[0]] + s[1..];
        assert ([s[0]] + p)[..|p|] == [s[0]] + p[..|p| - 1];
        Some([s[0]] + p)
  }

  /** One element of `orf(substring)`. */
  datatype OrfRegion = OrfRegion(sequence: string, naBegin: int, naEnd: int, frame: nat)

  const NIL_LENGTH := "undefined method `length' for nil:NilClass"

  /**
   * The ORF starting at amino acid `k` of frame `f`: its nucleotide span starts at `3k + f`
   * (1-based) and covers three nucleotides per amino acid; with no stop after `k` the code raises.
   */
  function RegionAt(frame: string, f: nat, k: nat): (r: Result<OrfRegion, string>)
    requires k <= |frame|
    ensures r.Ok? <==> '*' in frame[k..]
    ensures r.Err? ==> r.error == NIL_LENGTH
    ensures r.Ok? ==> && r.value.frame == f && r.value.naBegin == 3 * k + f
                      && r.value.naEnd - r.value.naBegin + 1 == 3 * |r.value.sequence|
                      && ShortestStop(frame[k..], r.value.sequence)
  {
    match StopPrefix(frame[k..])
    case None => Err(NIL_LENGTH)
    case Some(orf) =>
      var start := 3 * k + f;
      Ok(OrfRegion(orf, start, start + |orf| * 3 - 1, f))
  }

  const NIL_INDEX := "undefined method `[]' for nil:NilClass"

  /**
   * The block of `orf` for one located `(frame, offset)`: a frame with no translation, or an
   * offset past its end, reads from `nil` and raises.
   */
  function RegionFor(frames: seq<string>, p: (nat, nat)): (r: Result<OrfRegion, string>)
    ensures 1 <= p.0 <= |frames| && p.1 <= |frames[p.0 - 1]| ==> r == RegionAt(frames[p.0 - 1], p.0, p.1)
  {
    var (f, k) := p;
    if 1 <= f <= |frames| && k <= |frames[f - 1]| then RegionAt(frames[f - 1], f, k) else Err(NIL_INDEX)
  }

  /** `orf(substring)`: the ORF at each located occurrence of the peptide; the first failure raises. */
  function Orf(frames: seq<string>, sub: string): Result<seq<OrfRegion>, string>
    requires |frames| == 3
  {
    MapAll((p: (nat, nat)) => RegionFor(frames, p), LocateAa(frames, sub))
  }

  /**
   * Each ORF is in a frame where the peptide occurs, starts at its first occurrence, is the
   * shortest run from there to a stop, and spans three nucleotides per amino acid from `3k + f`.
   */
  lemma {:induction false} OrfRegionsSpec(frames: seq<string>, sub: string)
    requires |frames| == 3
    ensures var r := Orf(frames, sub);
            r.Ok? ==> forall region :: region in r.value ==> IsOrfOf(frames, sub, region)
  {
    var r := Orf(frames, sub);
    if r.Ok? {
      forall region | region in r.value ensures IsOrfOf(frames, sub, region) {
        var i :| 0 <= i < |r.value| && r.value[i] == region;
        OrfRegionAt(frames, sub, i);
      }
    }
  }

  /** What `orf` promises of each region: see `OrfRegionsSpec`. */
  predicate IsOrfOf(frames: seq<string>, sub: string, region: OrfRegion)
    requires |frames| == 3
  {
    && 1 <= region.frame <= 3
    && FrameIndex(frames, sub, region.frame).Some?
    && var k := FrameIndex(frames, sub, region.frame).value;
       && region.naBegin == 3 * k + region.frame
       && ShortestStop(frames[region.frame - 1][k..], region.sequence)
       && region.naEnd - region.naBegin + 1 == 3 * |region.sequence|
  }

  lemma {:induction false} OrfRegionAt(frames: seq<string>, sub: string, i: nat)
    requires |frames| == 3 && Orf(frames, sub).Ok? && i < |Orf(frames, sub).value|
    ensures IsOrfOf(frames, sub, Orf(frames, sub).value[i])
  {
    var located := LocateAa(frames, sub);
    var (f, k) := located[i];
    assert RegionFor(frames, located[i]) == Ok(Orf(frames, sub).value[i]);
  }

  /** `orf` raises exactly when some frame holding the peptide has no stop after it. */
  lemma {:induction false} OrfRaisesIff(frames: seq<string>, sub: string)
    requires |frames| == 3
    ensures Orf(frames, sub).Ok? <==>
              forall f :: 1 <= f <= 3 && FrameIndex(frames, sub, f).Some? ==>
                '*' in frames[f - 1][FrameIndex(frames, sub, f).value..]
  {
    if Orf(frames, sub).Ok? {
      forall f | 1 <= f <= 3 && FrameIndex(frames, sub, f).Some?
        ensures '*' in frames[f - 1][FrameIndex(frames, sub, f).value..]
      {
        OrfCoversFrame(frames, sub, f);
      }
    } else {
      OrfFailsInFrame(frames, sub);
    }
  }

  lemma {:induction false} OrfCoversFrame(frames: seq<string>, sub: string, f: nat)
    requires |frames| == 3 && 1 <= f <= 3 && FrameIndex(frames, sub, f).Some? && Orf(frames, sub).Ok?
    ensures '*' in frames[f - 1][FrameIndex(frames, sub, f).value..]
  {
    var located := LocateAa(frames, sub);
    var k := FrameIndex(frames, sub, f).value;
    assert (f, k) in located;
    var i :| 0 <= i < |located| && located[i] == (f, k);
    assert RegionFor(frames, located[i]).Ok?;
    assert k <= |frames[f - 1]|;
    assert RegionFor(frames, (f, k)) == RegionAt(frames[f - 1], f, k);
  }

  lemma {:induction false} OrfFailsInFrame(frames: seq<string>, sub: string)
    requires |frames| == 3 && Orf(frames, sub).Err?
    ensures exists f :: 1 <= f <= 3 && FrameIndex(frames, sub, f).Some? &&
                        '*' !in frames[f - 1][FrameIndex(frames, sub, f).value..]
  {
    var i := OrfErrAt(frames, sub);
    var p := LocateAa(frames, sub)[i];
    RegionForErr(frames, p);
    assert FrameIndex(frames, sub, p.0) == Some(p.1);
  }

  /** The occurrence whose region failed. */
  lemma {:induction false} OrfErrAt(frames: seq<string>, sub: string) returns (i: nat)
    requires |frames| == 3 && Orf(frames, sub).Err?
    ensures i < |LocateAa(frames, sub)| && RegionFor(frames, LocateAa(frames, sub)[i]).Err?
    ensures 1 <= LocateAa(frames, sub)[i].0 <= 3
    ensures FrameIndex(frames, sub, LocateAa(frames, sub)[i].0) == Some(LocateAa(frames, sub)[i].1)
  {
    var located := LocateAa(frames, sub);
    i :| 0 <= i < |located| && RegionFor(frames, located[i]).Err?;
  }

  lemma {:induction false} RegionForErr(frames: seq<string>, p: (nat, nat))
    requires |frames| == 3 && 1 <= p.0 <= 3 && p.1 <= |frames[p.0 - 1]| && RegionFor(frames, p).Err?
    ensures '*' !in frames[p.0 - 1][p.1..]
  {
  }

  // ---------------------------------------------------------------------------------------
  // Labels
  // ---------------------------------------------------------------------------------------

  /** `name || (substring.length > 10 ? substring[0, 7] + '...' : substring)`. */
  function LabelName(name: Option<string>, sub: string): (r: string)
    ensures name.Some? ==> r == name.value
    ensures name.None? && |sub| <= 10 ==> r == sub
    ensures name.None? && |sub| > 10 ==> |r| == 10 && r == sub[..7] + "..." && Slice(sub, 0, 7) == Some(sub[..7])
    ensures name.None? ==> |r| <= 10
  {
    match name
    case Some(n) => n
    case None => if |sub| > 10 then sub[..7] + "..." else sub
  }

  function StartLabel(n: string, frame: nat): string
  {
    "[" + n + " start (frame " + NatToString(frame) + ") =>"
  }

  function EndLabel(n: string, frame: nat): string
  {
    "<= " + n + " end (frame " + NatToString(frame) + ")]"
  }

  /** The two annotations `annotate_orf` adds for one region. */
  function RegionAnnotations(region: OrfRegion, n: string): seq<(int, string)>
  {
    var endLabel := EndLabel(n, region.frame);
    [(region.naBegin, StartLabel(n, region.frame)), (region.naEnd - |endLabel| - 1, endLabel)]
  }

  /** Everything `annotate_orf` adds, region by region. */
  function OrfAnnotations(regions: seq<OrfRegion>, n: string): (r: seq<(int, string)>)
    ensures |r| == 2 * |regions|
  {
    if |regions| == 0 then []
    else OrfAnnotations(regions[..|regions| - 1], n) + RegionAnnotations(regions[|regions| - 1], n)
  }

  /** Every region contributes its start annotation and its end annotation. */
  lemma {:induction false} OrfAnnotationsContents(regions: seq<OrfRegion>, n: string)
    ensures forall i :: 0 <= i < |regions| ==>
              && (regions[i].naBegin, StartLabel(n, regions[i].frame)) in OrfAnnotations(regions, n)
              && (regions[i].naEnd - |EndLabel(n, regions[i].frame)| - 1, EndLabel(n, regions[i].frame)) in OrfAnnotations(regions, n)
  {
    if |regions| > 0 {
      var init := regions[..|regions| - 1];
      OrfAnnotationsContents(init, n);
      assert forall i :: 0 <= i < |init| ==> regions[i] == init[i];
    }
  }

  lemma {:induction false} OrfAnnotationsStep(regions: seq<OrfRegion>, i: nat, n: string)
    requires i < |regions|
    ensures multiset(OrfAnnotations(regions[..i + 1], n)) ==
              multiset(OrfAnnotations(regions[..i], n)) + multiset(RegionAnnotations(regions[i], n))
  {
    assert regions[..i + 1][..i] == regions[..i];
  }

  lemma {:induction false} Accumulate<T>(before: multiset<T>, pre: multiset<T>, now: multiset<T>,
                                         done: multiset<T>, next: multiset<T>, step: multiset<T>)
    requires pre == before + done && now == pre + step && next == done + step
    ensures now == before + next
  {
  }

  /** The end label is placed so that it, plus one more column, finishes at the region's end. */
  lemma {:induction false} EndLabelPlacement(region: OrfRegion, n: string)
    ensures var a := RegionAnnotations(region, n)[1];
            a.0 + |a.1| + 1 == region.naEnd
  {
  }

  // ---------------------------------------------------------------------------------------
  // The sort order of `sort!` on [position, label] pairs
  // ---------------------------------------------------------------------------------------

  /** Ruby's `String#<=>` as `<=`: lexicographic by character, a prefix first. */
  predicate StringLe(a: string, b: string)
  {
    |a| == 0 || (|b| > 0 && (a[0] < b[0] || (a[0] == b[0] && StringLe(a[1..], b[1..]))))
  }

  lemma {:induction false} StringLeTotal(a: string, b: string)
    ensures StringLe(a, b) || StringLe(b, a)
  {
    if |a| > 0 && |b| > 0 && a[0] == b[0] {
      StringLeTotal(a[1..], b[1..]);
    }
  }

  lemma {:induction false} StringLeAntisymmetric(a: string, b: string)
    requires StringLe(a, b) && StringLe(b, a)
    ensures a == b
  {
    if |a| > 0 && |b| > 0 {
      StringLeAntisymmetric(a[1..], b[1..]);
      assert a == [a[0]] + a[1..] && b == [b[0]] + b[1..];
    }
  }

  lemma {:induction false} StringLeTransitive(a: string, b: string, c: string)
    requires StringLe(a, b) && StringLe(b, c)
    ensures StringLe(a, c)
  {
    if |a| > 0 && |b| > 0 && |c| > 0 && a[0] == b[0] == c[0] {
      StringLeTransitive(a[1..], b[1..], c[1..]);
    }
  }

  /** `Array#<=>` on `[position, label]`: by position, then by label. */
  predicate AnnotationLe(x: (int, string), y: (int, string))
  {
    x.0 < y.0 || (x.0 == y.0 && StringLe(x.1, y.1))
  }

  lemma {:induction false} AnnotationLeOrder(x: (int, string), y: (int, string), z: (int, string))
    ensures AnnotationLe(x, y) || AnnotationLe(y, x)
    ensures AnnotationLe(x, y) && AnnotationLe(y, x) ==> x == y
    ensures AnnotationLe(x, y) && AnnotationLe(y, z) ==> AnnotationLe(x, z)
  {
    StringLeTotal(x.1, y.1);
    if AnnotationLe(x, y) && AnnotationLe(y, x) {
      StringLeAntisymmetric(x.1, y.1);
    }
    if AnnotationLe(x, y) && AnnotationLe(y, z) && x.0 == y.0 == z.0 {
      StringLeTransitive(x.1, y.1, z.1);
    }
  }

  predicate Sorted(s: seq<(int, string)>)
  {
    forall i, j :: 0 <= i < j < |s| ==> AnnotationLe(s[i], s[j])
  }

  /** Inserting before the first greater element keeps a sorted list sorted. */
  lemma {:induction false} InsertKeepsSorted(s: seq<(int, string)>, k: nat, a: (int, string))
    requires Sorted(s) && k <= |s|
    requires forall i :: 0 <= i < k ==> AnnotationLe(s[i], a)
    requires k < |s| ==> !AnnotationLe(s[k], a)
    ensures Sorted(s[..k] + [a] + s[k..])
  {
    var r := s[..k] + [a] + s[k..];
    if k < |s| {
      AnnotationLeOrder(s[k], a, a);
    }
    forall i, j | 0 <= i < j < |r| ensures AnnotationLe(r[i], r[j]) {
      if j == k {
        assert r[i] == s[i];
      } else if i == k {
        assert r[j] == s[j - 1];
        if j - 1 > k {
          AnnotationLeOrder(a, s[k], s[j - 1]);
        }
      } else if i < k && j > k {
        assert r[i] == s[i] && r[j] == s[j - 1];
      } else if i < k {
        assert r[i] == s[i] && r[j] == s[j];
      } else {
        assert r[i] == s[i - 1] && r[j] == s[j - 1];
      }
    }
  }

  /**
   * A sorted list is determined by its elements, so "sorted, with the old elements and the new
   * one" is exactly what `push(...).sort!` leaves.
   */
  lemma {:induction false} SortedUnique(s: seq<(int, string)>, t: seq<(int, string)>)
    requires Sorted(s) && Sorted(t) && multiset(s) == multiset(t)
    ensures s == t
  {
    assert |s| == |multiset(s)| == |t|;
    if |s| > 0 {
      SortedHeadIsLeast(t, s[0]);
      SortedHeadIsLeast(s, t[0]);
      AnnotationLeOrder(s[0], t[0], t[0]);
      assert s == [s[0]] + s[1..] && t == [t[0]] + t[1..];
      assert multiset(s[1..]) == multiset(s) - multiset{s[0]};
      assert multiset(t[1..]) == multiset(t) - multiset{t[0]};
      SortedUnique(s[1..], t[1..]);
    }
  }

  lemma {:induction false} SortedHeadIsLeast(s: seq<(int, string)>, x: (int, string))
    requires Sorted(s) && x in multiset(s)
    ensures AnnotationLe(s[0], x)
  {
    var i :| 0 <= i < |s| && s[i] == x;
    if i == 0 {
      AnnotationLeOrder(x, x, x);
    }
  }

  // ---------------------------------------------------------------------------------------
  // The ERV and its annotation list
  // ---------------------------------------------------------------------------------------

  class Erv {
    const sequence: string
    /** `reading_frames`: the translations of frames 1, 2 and 3, at indices 0, 1 and 2. */
    const frames: seq<string>
    var annotations: seq<(int, string)>

    ghost predicate Valid()
      reads this
    {
      |frames| == 3 && Sorted(annotations)
    }

    /** `Erv.new(sequence)`, with the memoised translations supplied. */
    constructor(sequence: string, frames: seq<string>)
      requires |frames| == 3
      ensures Valid()
      ensures this.sequence == sequence && this.frames == frames && annotations == []
    {
      this.sequence := sequence;
      this.frames := frames;
      annotations := [];
    }

    /** `annotate(position, text)`: the list grows by this one pair and stays sorted. */
    method Annotate(position: int, text: string)
      requires Valid()
      modifies this
      ensures Valid()
      ensures multiset(annotations) == old(multiset(annotations)) + multiset{(position, text)}
    {
      var a := (position, text);
      var k := 0;
      while k < |annotations| && AnnotationLe(annotations[k], a)
        invariant 0 <= k <= |annotations|
        invariant forall i :: 0 <= i < k ==> AnnotationLe(annotations[i], a)
      {
        k := k + 1;
      }
      InsertKeepsSorted(annotations, k, a);
      assert annotations == annotations[..k] + annotations[k..];
      annotations := annotations[..k] + [a] + annotations[k..];
    }

    /** `clear_annotations`. */
    method ClearAnnotations()
      requires |frames| == 3
      modifies this
      ensures Valid() && annotations == []
    {
      annotations := [];
    }

    /** The body of the `each` in `annotate_orf`: a start and an end annotation for one region. */
    method AnnotateRegion(region: OrfRegion, n: string)
      requires Valid()
      modifies this
      ensures Valid()
      ensures multiset(annotations) == old(multiset(annotations)) + multiset(RegionAnnotations(region, n))
    {
      var startLabel := StartLabel(n, region.frame);
      var endLabel := EndLabel(n, region.frame);
      Annotate(region.naBegin, startLabel);
      Annotate(region.naEnd - |endLabel| - 1, endLabel);
    }

    /** The `each` of `annotate_orf`: the annotations of every region, in turn. */
    method AnnotateRegions(regions: seq<OrfRegion>, n: string)
      requires Valid()
      modifies this
      ensures Valid()
      ensures multiset(annotations) == old(multiset(annotations)) + multiset(OrfAnnotations(regions, n))
    {
      var i := 0;
      assert regions[..0] == [];
      while i < |regions|
        invariant 0 <= i <= |regions|
        invariant Valid()
        invariant multiset(annotations) == old(multiset(annotations)) + multiset(OrfAnnotations(regions[..i], n))
      {
        ghost var pre := multiset(annotations);
        AnnotateRegion(regions[i], n);
        OrfAnnotationsStep(regions, i, n);
        Accumulate(old(multiset(annotations)), pre, multiset(annotations), multiset(OrfAnnotations(regions[..i], n)),
                   multiset(OrfAnnotations(regions[..i + 1], n)), multiset(RegionAnnotations(regions[i], n)));
        i := i + 1;
      }
      assert regions[..i] == regions;
    }

    /**
     * `annotate_orf(substring, name)`: when every located ORF has a stop, a start and an end
     * annotation per ORF; otherwise `orf` raises before anything is annotated (`ok` false).
     */
    method AnnotateOrf(substring: string, name: Option<string>) returns (ok: bool)
      requires Valid()
      modifies this
      ensures Valid()
      ensures ok <==> Orf(frames, substring).Ok?
      ensures !ok ==> annotations == old(annotations)
      ensures ok ==> (multiset(annotations) ==
                        old(multiset(annotations)) + multiset(OrfAnnotations(Orf(frames, substring).value, LabelName(name, substring))))
    {
      var orfs := Orf(frames, substring);
      if orfs.Err? {
        return false;
      }
      AnnotateRegions(orfs.value, LabelName(name, substring));
      return true;
    }
  }
}
