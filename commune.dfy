/**
 * Target-site-duplication (TSD) paring, shared by LTRs and putative ERVs. The raw sequence is
 * fetched with `buffer` extra nucleotides on each side; the 5-nt motif just inside each buffer
 * is compared, and on a match the sequence is cut down to the span from one motif to the other.
 * Slicing follows Ruby exactly (negative indices count from the end, out of range is `nil`).
 */
module Commune {
  import opened Wrappers
  import opened RubyCore

  const TSD_LENGTH := 5

  /** `tsd_5`: `raw_seq[buffer - 5, 5]`. */
  function Tsd5(raw: string, buffer: int): Option<string>
  {
    Slice(raw, buffer - TSD_LENGTH, TSD_LENGTH)
  }

  /** `tsd_3`: `raw_seq[-buffer, 5]`. */
  function Tsd3(raw: string, buffer: int): Option<string>
  {
    Slice(raw, -buffer, TSD_LENGTH)
  }

  /** `has_tsd?`: the two motifs are equal (two `nil`s are equal too). */
  predicate HasTsd(raw: string, buffer: int)
  {
    Tsd5(raw, buffer) == Tsd3(raw, buffer)
  }

  /** `try_paring_to_tsd`, which is also `seq`: `raw_seq[(buffer - 5)...(-buffer + 5)]` on a match, else `raw_seq`. */
  function TryParingToTsd(raw: string, buffer: int): Option<string>
  {
    if HasTsd(raw, buffer) then SliceRange(raw, buffer - TSD_LENGTH, -buffer + TSD_LENGTH) else Some(raw)
  }

  /** The motifs sit just inside the buffers: positions `b-5 .. b-1` and `n-b .. n-b+4`. */
  lemma {:induction false} MotifWindows(raw: string, buffer: int)
    requires buffer > TSD_LENGTH && |raw| >= 2 * buffer
    ensures Tsd5(raw, buffer) == Some(raw[buffer - TSD_LENGTH..buffer])
    ensures Tsd3(raw, buffer) == Some(raw[|raw| - buffer..|raw| - buffer + TSD_LENGTH])
    ensures HasTsd(raw, buffer) <==> raw[buffer - TSD_LENGTH..buffer] == raw[|raw| - buffer..|raw| - buffer + TSD_LENGTH]
  {
  }

  /** On a match the pared sequence is `[b-5, n-b+5)`: both motifs kept, the outer `b-5` nt dropped on each side. */
  lemma {:induction false} ParedOnMatch(raw: string, buffer: int)
    requires buffer > TSD_LENGTH && |raw| >= 2 * buffer
    requires HasTsd(raw, buffer)
    ensures var n := |raw|;
            TryParingToTsd(raw, buffer) == Some(raw[buffer - TSD_LENGTH..n - buffer + TSD_LENGTH])
    ensures var p := TryParingToTsd(raw, buffer).value;
            && |p| == |raw| - 2 * (buffer - TSD_LENGTH)
            && Some(p[..TSD_LENGTH]) == Tsd5(raw, buffer)
            && Some(p[|p| - TSD_LENGTH..]) == Tsd3(raw, buffer)
  {
    MotifWindows(raw, buffer);
    var n := |raw|;
    var p := raw[buffer - TSD_LENGTH..n - buffer + TSD_LENGTH];
    assert p[..TSD_LENGTH] == raw[buffer - TSD_LENGTH..buffer];
    assert p[|p| - TSD_LENGTH..] == raw[n - buffer..n - buffer + TSD_LENGTH];
  }

  /** On a mismatch the raw sequence comes back unchanged. */
  lemma {:induction false} UnchangedOnMismatch(raw: string, buffer: int)
    requires !HasTsd(raw, buffer)
    ensures TryParingToTsd(raw, buffer) == Some(raw)
  {
  }

  /** With `buffer = 5` the exclusive end `-buffer + 5` is 0, so a match pares the sequence to nothing. */
  lemma {:induction false} EmptyAtBufferFive(raw: string)
    requires |raw| >= 10 && raw[..5] == raw[|raw| - 5..]
    ensures HasTsd(raw, 5) && TryParingToTsd(raw, 5) == Some("")
  {
    assert Tsd5(raw, 5) == Some(raw[..5]);
    assert raw[|raw| - 5..|raw|] == raw[|raw| - 5..];
    assert Tsd3(raw, 5) == Some(raw[|raw| - 5..]);
  }

  /** A sequence built as flank + motif + core + motif + flank, flanks `b-5` long, pares to motif + core + motif. */
  lemma {:induction false} ParingRoundTrip(left: string, motif: string, core: string, right: string)
    requires |motif| == TSD_LENGTH && |left| > 0 && |left| == |right|
    ensures var b := |left| + TSD_LENGTH;
            TryParingToTsd(left + motif + core + motif + right, b) == Some(motif + core + motif)
  {
    var raw := left + motif + core + motif + right;
    var b := |left| + TSD_LENGTH;
    MotifWindows(raw, b);
    assert raw[b - TSD_LENGTH..b] == motif;
    assert raw[|raw| - b..|raw| - b + TSD_LENGTH] == motif;
    assert raw[b - TSD_LENGTH..|raw| - b + TSD_LENGTH] == motif + core + motif;
  }

  /** The motif as it appears in `type`, with non-word characters replaced by `_`. */
  function MotifLabel(motif: string): string
  {
    ReplaceNonWord(motif)
  }

  /**
   * The suffix of `type`: "(pared to TSD m)" on a match, "(TSD mismatch 5' m5, 3' m3)" otherwise;
   * `nil` when a motif it prints is `nil` (Ruby raises on `nil.gsub`).
   */
  function TypeSuffix(raw: string, buffer: int): (r: Option<string>)
    ensures r.Some? <==> Tsd5(raw, buffer).Some? && Tsd3(raw, buffer).Some?
    ensures r.Some? ==> |r.value| >= 6 && (r.value[..6] == "(pared" <==> HasTsd(raw, buffer))
  {
    match (Tsd5(raw, buffer), Tsd3(raw, buffer))
    case (Some(t5), Some(t3)) =>
      if HasTsd(raw, buffer) then Some("(pared to TSD " + MotifLabel(t5) + ")")
      else
        var m := "(TSD mismatch 5' " + MotifLabel(t5) + ", 3' " + MotifLabel(t3) + ")";
        assert m[1] == 'T';
        Some(m)
    case _ => None
  }

  /**
   * Where the labels sit in the suffix: after the 14-character "(pared to TSD " on a match;
   * after "(TSD mismatch 5' " and after the ", 3' " that follows it on a mismatch. Each label
   * has its motif's length and only word characters, so it can be cut back out.
   */
  lemma {:induction false} TypeSuffixLayout(raw: string, buffer: int)
    ensures Tsd5(raw, buffer).Some? && Tsd3(raw, buffer).Some? && HasTsd(raw, buffer) ==>
              var r, l5 := TypeSuffix(raw, buffer).value, MotifLabel(Tsd5(raw, buffer).value);
              && |r| == |l5| + 15
              && r[..14] == "(pared to TSD "
              && r[14..14 + |l5|] == l5
              && r[14 + |l5|] == ')'
    ensures Tsd5(raw, buffer).Some? && Tsd3(raw, buffer).Some? && !HasTsd(raw, buffer) ==>
              var r := TypeSuffix(raw, buffer).value;
              var l5, l3 := MotifLabel(Tsd5(raw, buffer).value), MotifLabel(Tsd3(raw, buffer).value);
              && |r| == |l5| + |l3| + 23
              && r[..17] == "(TSD mismatch 5' "
              && r[17..17 + |l5|] == l5
              && r[17 + |l5|..22 + |l5|] == ", 3' "
              && r[22 + |l5|..22 + |l5| + |l3|] == l3
              && r[22 + |l5| + |l3|] == ')'
    ensures Tsd5(raw, buffer).Some? ==> |MotifLabel(Tsd5(raw, buffer).value)| == |Tsd5(raw, buffer).value|
    ensures Tsd3(raw, buffer).Some? ==> |MotifLabel(Tsd3(raw, buffer).value)| == |Tsd3(raw, buffer).value|
  {
    if Tsd5(raw, buffer).Some? && Tsd3(raw, buffer).Some? {
      var l5, l3 := MotifLabel(Tsd5(raw, buffer).value), MotifLabel(Tsd3(raw, buffer).value);
      if HasTsd(raw, buffer) {
        var r := "(pared to TSD " + l5 + ")";
        assert r[14..14 + |l5|] == l5;
      } else {
        var r := "(TSD mismatch 5' " + l5 + ", 3' " + l3 + ")";
        assert r[17..17 + |l5|] == l5;
        assert r[17 + |l5|..22 + |l5|] == ", 3' ";
        assert r[22 + |l5|..22 + |l5| + |l3|] == l3;
      }
    }
  }

  /** `type`: the element kind (its class name, titleised and down-cased) followed by the TSD suffix. */
  function Type(kind: string, raw: string, buffer: int): Option<string>
  {
    match TypeSuffix(raw, buffer)
    case Some(suffix) => Some(kind + " " + suffix)
    case None => None
  }
}
