/**
 * One long terminal repeat: a view over one (hit, HSP) pair with normalised coordinates,
 * strand, target identifier, midpoint, and the fuzzy "same locus" comparison (each raw
 * coordinate within 200 nt of the other's) that the curation step groups by.
 */
module Ltrs {
  import opened Wrappers
  import opened RubyCore
  import opened Blast
  import FastaPrinter

  /** Half-width of `coord_window`. */
  const WINDOW := 200

  /** `coord_window(coord).include?(x)`: `x` lies in `(coord - 200)..(coord + 200)`. */
  predicate InCoordWindow(coord: int, x: int)
  {
    coord - WINDOW <= x <= coord + WINDOW
  }

  function Abs(x: int): int
  {
    if x < 0 then -x else x
  }

  datatype Ltr = Ltr(hit: Hit, hsp: Hsp)
  {
    /** `plus_strand?`: the query and hit frames agree. */
    predicate PlusStrand()
    {
      hsp.queryFrame == hsp.hitFrame
    }

    predicate MinusStrand()
    {
      !PlusStrand()
    }

    function Definition(): string
    {
      hit.definition
    }

    function Accession(): string
    {
      hit.accession
    }

    /** `hit_id`: the second `|`-separated field of the hit identifier, `nil` if there is none. */
    function HitId(): Option<string>
    {
      SecondField(hit.hitId, '|')
    }

    /** `from` and `to` are the raw, unnormalised HSP coordinates. */
    function From(): int
    {
      hsp.hitFrom
    }

    function To(): int
    {
      hsp.hitTo
    }

    /** `up_coord`: the smaller of the two coordinates. */
    function UpCoord(): (r: int)
      ensures r <= hsp.hitFrom && r <= hsp.hitTo && (r == hsp.hitFrom || r == hsp.hitTo)
    {
      if hsp.hitFrom <= hsp.hitTo then hsp.hitFrom else hsp.hitTo
    }

    /** `down_coord`: the larger of the two coordinates. */
    function DownCoord(): (r: int)
      ensures r >= hsp.hitFrom && r >= hsp.hitTo && (r == hsp.hitFrom || r == hsp.hitTo)
    {
      if hsp.hitFrom <= hsp.hitTo then hsp.hitTo else hsp.hitFrom
    }

    /** `length`: the inclusive span, at least 1 and independent of the HSP's orientation. */
    function Length(): (r: int)
      ensures r >= 1 && r == Abs(hsp.hitTo - hsp.hitFrom) + 1
    {
      DownCoord() - UpCoord() + 1
    }

    /** `midpoint`: `(hit_from + hit_to) / 2.0`. */
    function Midpoint(): real
    {
      (hsp.hitFrom + hsp.hitTo) as real / 2.0
    }

    /** Twice the midpoint, the integer key the model sorts by. */
    function MidpointKey(): int
    {
      hsp.hitFrom + hsp.hitTo
    }

    /** `==`: same accession, and `from` and `to` each within 200 nt of the other's. */
    predicate SameLocus(other: Ltr)
    {
      Accession() == other.Accession() && InCoordWindow(From(), other.From()) && InCoordWindow(To(), other.To())
    }

    /** The fields the FASTA printer reads. */
    function Span(): FastaPrinter.Span
    {
      FastaPrinter.Span(Definition(), Accession(), PlusStrand(), From(), To(), Length())
    }
  }

  /** `==` as a two-argument function, the comparison curation groups LTRs by. */
  function Same(a: Ltr, b: Ltr): bool
  {
    a.SameLocus(b)
  }

  /** `length` as a function, the measure curation maximises. */
  function Len(a: Ltr): int
  {
    a.Length()
  }

  /** `up_coord <= down_coord`, and their difference is the length less one. */
  lemma {:induction false} CoordsOrdered(l: Ltr)
    ensures l.UpCoord() <= l.DownCoord() && l.Length() == l.DownCoord() - l.UpCoord() + 1
  {
  }

  /** Reversing the HSP's orientation changes neither the normalised span nor the length. */
  lemma {:induction false} LengthIgnoresOrientation(l: Ltr)
    ensures var r := Ltr(l.hit, l.hsp.(hitFrom := l.hsp.hitTo, hitTo := l.hsp.hitFrom));
            r.UpCoord() == l.UpCoord() && r.DownCoord() == l.DownCoord() && r.Length() == l.Length()
  {
  }

  /** Exactly one of the two strand predicates holds. */
  lemma {:induction false} ExactlyOneStrand(l: Ltr)
    ensures l.PlusStrand() <==> l.hsp.queryFrame == l.hsp.hitFrame
    ensures l.MinusStrand() <==> !l.PlusStrand()
  {
  }

  /** Comparing midpoints is comparing the integer keys. */
  lemma {:induction false} MidpointOrder(a: Ltr, b: Ltr)
    ensures a.Midpoint() < b.Midpoint() <==> a.MidpointKey() < b.MidpointKey()
    ensures a.Midpoint() == b.Midpoint() <==> a.MidpointKey() == b.MidpointKey()
  {
  }

  /** The same-locus rule written with distances; it is reflexive and symmetric. */
  lemma {:induction false} SameLocusIff(a: Ltr, b: Ltr)
    ensures a.SameLocus(b) <==>
              a.Accession() == b.Accession() && Abs(a.From() - b.From()) <= WINDOW && Abs(a.To() - b.To()) <= WINDOW
    ensures a.SameLocus(a)
    ensures a.SameLocus(b) <==> b.SameLocus(a)
  {
  }

  /** The same-locus rule is not transitive: three LTRs 150 nt apart in a row. */
  lemma {:induction false} SameLocusNotTransitive()
    ensures var h := Hit("gi|1|", "X", "d", []);
            var a := Ltr(h, Hsp(1000, 2000, 1, 1, 0));
            var b := Ltr(h, Hsp(1150, 2150, 1, 1, 0));
            var c := Ltr(h, Hsp(1300, 2300, 1, 1, 0));
            a.SameLocus(b) && b.SameLocus(c) && !a.SameLocus(c)
  {
  }

  /** The identifier of a RefSeq hit is its GenInfo number: "gi|224514737|ref|NT_009237.18|" gives "224514737". */
  lemma {:induction false} HitIdExample()
    ensures Ltr(Hit("gi" + "|" + "224514737" + "|" + "ref|NT_009237.18|", "NT_009237", "d", []), Hsp(1, 2, 1, 1, 2)).HitId()
            == Some("224514737")
  {
    var gi := "224514737";
    assert '|' !in "gi" && '|' !in gi;
    assert "|" == ['|'];
    SecondFieldOfPrefix("gi", gi, '|', "ref|NT_009237.18|");
  }
}
