/**
 * Transition/transversion counting over two aligned nucleotide strings of equal length:
 * positions where the strings differ are classified by the purine/pyrimidine transition table,
 * with a fallback to one of each when either count is zero, and the counts are normalised into
 * two fractions.
 */
module RatioCalculator {
  import opened Wrappers
  import opened RubyCore

  /** `TRANSITION_HASH`: a <-> g and c <-> t; any other character has no entry. */
  function Transition(c: char): Option<char>
  {
    if c == 'a' then Some('g')
    else if c == 'g' then Some('a')
    else if c == 'c' then Some('t')
    else if c == 't' then Some('c')
    else None
  }

  /** The table is defined on exactly the four lower-case bases, moves each one, and undoes itself. */
  lemma {:induction false} TransitionInvolution(c: char)
    ensures Transition(c).Some? <==> c in "agct"
    ensures Transition(c) != Some(c)
    ensures Transition(c).Some? ==> Transition(Transition(c).value) == Some(c)
  {
  }

  /** The two downcased strings and their common length. */
  datatype Calculator = Calculator(query: string, target: string, length: nat)
  {
    /** What a successful construction guarantees. */
    predicate Valid()
    {
      |query| == length && |target| == length
    }
  }

  const LENGTH_MISMATCH := "Both FASTA objects must have a sequence of the same length"

  /** `RatioCalculator.new(query, target)`: raises unless the two strings have the same length. */
  function New(query: string, target: string): (r: Result<Calculator, string>)
    ensures r.Ok? <==> |query| == |target|
    ensures r.Err? ==> r.error == LENGTH_MISMATCH
    ensures r.Ok? ==> r.value.Valid() && r.value.length == |query|
    ensures r.Ok? ==> forall i :: 0 <= i < |query| ==>
              r.value.query[i] == LowerChar(query[i]) && r.value.target[i] == LowerChar(target[i])
  {
    var q, t := Downcase(query), Downcase(target);
    if |query| != |target| then Err(LENGTH_MISMATCH) else Ok(Calculator(q, t, |query|))
  }

  /** `each`: the characters of the two strings, position by position. */
  function Each(c: Calculator): (r: seq<(char, char)>)
    requires c.Valid()
    ensures |r| == c.length && forall i :: 0 <= i < c.length ==> r[i] == (c.query[i], c.target[i])
  {
    seq(c.length, i requires 0 <= i < c.length => (c.query[i], c.target[i]))
  }

  /** The two strings differ at this position. */
  predicate Differs(p: (char, char))
  {
    p.0 != p.1
  }

  /** A differing position the table maps from the query's base to the target's. */
  predicate IsTransition(p: (char, char))
  {
    p.0 != p.1 && Transition(p.0) == Some(p.1)
  }

  /** Any other differing position. */
  predicate IsTransversion(p: (char, char))
  {
    p.0 != p.1 && Transition(p.0) != Some(p.1)
  }

  /** The number of positions satisfying `p`. */
  function Count(p: ((char, char)) -> bool, s: seq<(char, char)>): (n: nat)
    ensures n <= |s|
  {
    if |s| == 0 then 0 else (if p(s[0]) then 1 else 0) + Count(p, s[1..])
  }

  lemma {:induction false} CountAppend(p: ((char, char)) -> bool, s: seq<(char, char)>, x: (char, char))
    ensures Count(p, s + [x]) == Count(p, s) + (if p(x) then 1 else 0)
  {
    if |s| > 0 {
      assert (s + [x])[1..] == s[1..] + [x];
      CountAppend(p, s[1..], x);
    }
  }

  datatype Counts = Counts(transitions: nat, transversions: nat)

  /** The counts before the fallback: one per transition, one per transversion. */
  function Classify(pairs: seq<(char, char)>): Counts
  {
    Counts(Count(IsTransition, pairs), Count(IsTransversion, pairs))
  }

  /** Every differing position is counted exactly once, identical ones not at all. */
  lemma {:induction false} ClassifyBound(pairs: seq<(char, char)>)
    ensures Classify(pairs).transitions + Classify(pairs).transversions == Count(Differs, pairs)
    ensures Count(Differs, pairs) <= |pairs|
  {
    if |pairs| > 0 {
      ClassifyBound(pairs[1..]);
    }
  }

  /** If either count is zero, `counter` answers one of each instead. */
  function Fallback(c: Counts): (r: Counts)
    ensures r.transitions >= 1 && r.transversions >= 1
    ensures c.transitions > 0 && c.transversions > 0 ==> r == c
    ensures c.transitions == 0 || c.transversions == 0 ==> r == Counts(1, 1)
  {
    if c.transitions == 0 || c.transversions == 0 then Counts(1, 1) else c
  }

  /** `counter`: the fold over `each`, bumping one of the two entries at each differing position. */
  method Counter(calculator: Calculator) returns (counts: Counts)
    requires calculator.Valid()
    ensures counts == Fallback(Classify(Each(calculator)))
  {
    var pairs := Each(calculator);
    var transitions, transversions := 0, 0;
    var i := 0;
    while i < |pairs|
      invariant 0 <= i <= |pairs|
      invariant transitions == Count(IsTransition, pairs[..i])
      invariant transversions == Count(IsTransversion, pairs[..i])
    {
      var (from, to) := pairs[i];
      CountAppend(IsTransition, pairs[..i], pairs[i]);
      CountAppend(IsTransversion, pairs[..i], pairs[i]);
      assert pairs[..i + 1] == pairs[..i] + [pairs[i]];
      if from != to {
        if Transition(from) == Some(to) {
          transitions := transitions + 1;
        } else {
          transversions := transversions + 1;
        }
      }
      i := i + 1;
    }
    assert pairs[..i] == pairs;
    if transitions == 0 || transversions == 0 {
      counts := Counts(1, 1);
    } else {
      counts := Counts(transitions, transversions);
    }
  }

  datatype Fractions = Fractions(transitions: real, transversions: real)

  /** Each count divided by their sum. */
  function RatioOf(c: Counts): (r: Fractions)
    requires c.transitions > 0 && c.transversions > 0
    ensures 0.0 < r.transitions < 1.0 && 0.0 < r.transversions < 1.0
    ensures r.transitions + r.transversions == 1.0
    ensures r.transitions * c.transversions as real == r.transversions * c.transitions as real
  {
    var total := (c.transitions + c.transversions) as real;
    Fractions(c.transitions as real / total, c.transversions as real / total)
  }

  /** `ratio`: the counts of `counter`, each divided in place by their total. */
  method Ratio(calculator: Calculator) returns (fractions: Fractions)
    requires calculator.Valid()
    ensures fractions == RatioOf(Fallback(Classify(Each(calculator))))
  {
    var counts := Counter(calculator);
    var total := (counts.transitions + counts.transversions) as real;
    fractions := Fractions(counts.transitions as real / total, counts.transversions as real / total);
  }

  /** Both strings are downcased first, so the classification ignores case. */
  lemma {:induction false} CaseInsensitive(query: string, target: string, query2: string, target2: string)
    requires Downcase(query) == Downcase(query2) && Downcase(target) == Downcase(target2)
    ensures New(query, target) == New(query2, target2)
  {
    assert |query| == |Downcase(query)| == |query2|;
    assert |target| == |Downcase(target)| == |target2|;
  }

  lemma {:induction false} CountNone(p: ((char, char)) -> bool, s: seq<(char, char)>)
    requires forall k :: 0 <= k < |s| ==> !p(s[k])
    ensures Count(p, s) == 0
  {
    if |s| > 0 {
      CountNone(p, s[1..]);
    }
  }

  /** Comparing a string with itself finds no difference, so the counts fall back to one of each. */
  lemma {:induction false} IdenticalFallsBack(s: string)
    ensures New(s, s).Ok?
    ensures Fallback(Classify(Each(New(s, s).value))) == Counts(1, 1)
    ensures RatioOf(Fallback(Classify(Each(New(s, s).value)))) == Fractions(0.5, 0.5)
  {
    var pairs := Each(New(s, s).value);
    CountNone(IsTransition, pairs);
  }
}
