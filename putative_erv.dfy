/**
 * A putative ERV: two LTRs ordered by midpoint (the 5' LTR first), which the constructor
 * requires to lie on the same strand of the same target sequence.
 */
module PutativeErvs {
  import opened Wrappers
  import opened Ltrs
  import FastaPrinter

  datatype PutativeErv = PutativeErv(first: Ltr, last: Ltr)
  {
    /** What a successful construction guarantees. */
    predicate Valid()
    {
      && first.PlusStrand() == last.PlusStrand()
      && first.HitId() == last.HitId()
      && first.MidpointKey() <= last.MidpointKey()
    }

    /** `ltrs`. */
    function Ltrs(): seq<Ltr>
    {
      [first, last]
    }

    /** `plus_strand?`: both LTRs are on the plus strand. */
    predicate PlusStrand()
    {
      first.PlusStrand() && last.PlusStrand()
    }

    /** `minus_strand?`: both LTRs are on the minus strand. */
    predicate MinusStrand()
    {
      first.MinusStrand() && last.MinusStrand()
    }

    /** `definition` and `accession` are those of the 5' LTR. */
    function Definition(): string
    {
      first.Definition()
    }

    function Accession(): string
    {
      first.Accession()
    }

    /** `length`: from the 5' LTR's upstream end to the 3' LTR's downstream end, inclusive. */
    function Length(): int
    {
      last.DownCoord() - first.UpCoord() + 1
    }

    /** `from`: the 5' LTR's `up_coord` on the plus strand, else the 3' LTR's `down_coord`. */
    function From(): int
    {
      if PlusStrand() then first.UpCoord() else last.DownCoord()
    }

    /** `to`: the 5' LTR's `up_coord` on the minus strand, else the 3' LTR's `down_coord`. */
    function To(): int
    {
      if MinusStrand() then first.UpCoord() else last.DownCoord()
    }

    /** `==`: same accession, and `from` and `to` each within 200 nt of the other's. */
    predicate SameLocus(other: PutativeErv)
    {
      Accession() == other.Accession() && InCoordWindow(From(), other.From()) && InCoordWindow(To(), other.To())
    }

    /** The fields the FASTA printer reads. */
    function Span(): FastaPrinter.Span
    {
      FastaPrinter.Span(Definition(), Accession(), PlusStrand(), From(), To(), Length())
    }
  }

  /** `[ltr_1, ltr_2].sort_by(&:midpoint)`; on equal midpoints the argument order is kept. */
  function Order(a: Ltr, b: Ltr): (r: (Ltr, Ltr))
    ensures r == (a, b) || r == (b, a)
    ensures r.0.MidpointKey() <= r.1.MidpointKey()
    ensures a.MidpointKey() < b.MidpointKey() ==> r == (a, b)
  {
    if b.MidpointKey() < a.MidpointKey() then (b, a) else (a, b)
  }

  /** `PutativeErv.new(ltr_1, ltr_2)`: raises unless both LTRs share the strand, then unless they share the hit id. */
  function New(a: Ltr, b: Ltr): (r: Result<PutativeErv, string>)
    ensures r.Ok? <==> a.PlusStrand() == b.PlusStrand() && a.HitId() == b.HitId()
    ensures a.PlusStrand() != b.PlusStrand() ==> r == Err("LTRs must be in the same orientation")
    ensures a.PlusStrand() == b.PlusStrand() && a.HitId() != b.HitId() ==> r == Err("LTRs must have the same Hit ID")
    ensures r.Ok? ==> r.value.Valid() && multiset{r.value.first, r.value.last} == multiset{a, b}
  {
    var (f, l) := Order(a, b);
    if f.PlusStrand() != l.PlusStrand() then Err("LTRs must be in the same orientation")
    else if f.HitId() != l.HitId() then Err("LTRs must have the same Hit ID")
    else Ok(PutativeErv(f, l))
  }

  /** Two LTRs that may be paired. */
  predicate Compatible(a: Ltr, b: Ltr)
  {
    a.PlusStrand() == b.PlusStrand() && a.HitId() == b.HitId()
  }

  /** The argument order does not matter when the midpoints differ. */
  lemma {:induction false} NewIgnoresArgumentOrder(a: Ltr, b: Ltr)
    requires a.MidpointKey() != b.MidpointKey()
    ensures New(a, b) == New(b, a)
  {
  }

  /** A constructed ERV is on exactly one strand. */
  lemma {:induction false} ExactlyOneStrand(a: Ltr, b: Ltr)
    requires New(a, b).Ok?
    ensures New(a, b).value.PlusStrand() != New(a, b).value.MinusStrand()
  {
  }

  /** `from`/`to` run 5' to 3' on the plus strand and the other way on the minus strand. */
  lemma {:induction false} Boundaries(e: PutativeErv)
    requires e.Valid()
    ensures e.PlusStrand() ==> e.From() == e.first.UpCoord() && e.To() == e.last.DownCoord()
    ensures e.MinusStrand() ==> e.From() == e.last.DownCoord() && e.To() == e.first.UpCoord()
    ensures e.PlusStrand() || e.MinusStrand()
  {
  }

  /** When the 3' LTR starts after the 5' LTR ends, the length spans both LTRs exactly. */
  lemma {:induction false} LengthSpansBoth(e: PutativeErv)
    requires e.last.UpCoord() >= e.first.DownCoord()
    ensures e.Length() == Max(e.first.DownCoord(), e.last.DownCoord()) - Min(e.first.UpCoord(), e.last.UpCoord()) + 1
  {
  }

  /** With nested LTRs the length is not the span of both: the 5' LTR (by midpoint) can reach further downstream. */
  lemma {:induction false} NestedLengthIsShorter()
    ensures var h := Blast.Hit("gi|7|", "X", "d", []);
            var outer := Ltr(h, Blast.Hsp(100, 1000, 1, 1, 0));
            var inner := Ltr(h, Blast.Hsp(500, 700, 1, 1, 0));
            var e := New(inner, outer).value;
            e.first == outer && e.Length() == 601 && e.Length() < 1000 - 100 + 1
  {
  }

  function Max(x: int, y: int): int
  {
    if x < y then y else x
  }

  function Min(x: int, y: int): int
  {
    if x < y then x else y
  }

  /** The same-locus rule is reflexive and symmetric. */
  lemma {:induction false} SameLocusReflexiveSymmetric(a: PutativeErv, b: PutativeErv)
    ensures a.SameLocus(a)
    ensures a.SameLocus(b) <==> b.SameLocus(a)
    ensures a.SameLocus(b) <==>
              a.Accession() == b.Accession() && Abs(a.From() - b.From()) <= WINDOW && Abs(a.To() - b.To()) <= WINDOW
  {
  }

  /** `==` as a two-argument function, the comparison curation groups ERVs by. */
  function Same(a: PutativeErv, b: PutativeErv): bool
  {
    a.SameLocus(b)
  }

  /** `length` as a function, the measure curation maximises. */
  function Len(a: PutativeErv): int
  {
    a.Length()
  }
}
