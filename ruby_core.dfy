/**
 * The handful of Ruby core `String` and `Integer` operations the modelled code relies on,
 * written out with Ruby's own edge cases: `split` drops trailing empty fields, slicing accepts
 * negative indices and answers `nil` out of range, `index` answers `nil` when nothing matches.
 */
module RubyCore {
  import opened Wrappers

  // ---------------------------------------------------------------------------------------
  // String#split with a one-character separator
  // ---------------------------------------------------------------------------------------

  /** Every field of `s` between occurrences of `sep`, empty fields included. */
  function Fields(s: string, sep: char): (r: seq<string>)
    ensures |r| >= 1
    ensures forall i :: 0 <= i < |r| ==> sep !in r[i]
    ensures r[0] <= s && (|r[0]| == |s| || s[|r[0]|] == sep)
  {
    if |s| == 0 then [""]
    else if s[0] == sep then [""] + Fields(s[1..], sep)
    else
      var rest := Fields(s[1..], sep);
      [[s[0]] + rest[0]] + rest[1..]
  }

  /** Ruby's `Array#join(sep)`. */
  function Join(fields: seq<string>, sep: char): string
  {
    if |fields| == 0 then ""
    else if |fields| == 1 then fields[0]
    else fields[0] + [sep] + Join(fields[1..], sep)
  }

  /** Splitting loses nothing: joining the fields back gives the original string. */
  lemma {:induction false} JoinFields(s: string, sep: char)
    ensures Join(Fields(s, sep), sep) == s
  {
    if |s| > 0 {
      JoinFields(s[1..], sep);
      var rest := Fields(s[1..], sep);
      if s[0] == sep {
        assert Fields(s, sep)[1..] == rest;
      } else {
        var r := Fields(s, sep);
        assert r[1..] == rest[1..];
        if |rest| > 1 {
          assert Join(rest, sep) == rest[0] + [sep] + Join(rest[1..], sep);
        }
      }
    }
  }

  /** Splitting a join of separator-free fields gives those fields back. */
  lemma {:induction false} FieldsOfJoin(fields: seq<string>, sep: char)
    requires |fields| >= 1
    requires forall i :: 0 <= i < |fields| ==> sep !in fields[i]
    ensures Fields(Join(fields, sep), sep) == fields
  {
    if |fields| == 1 {
      FieldsOfWord(fields[0], sep, []);
      assert fields[0] + [] == fields[0];
    } else {
      FieldsOfJoin(fields[1..], sep);
      FieldsOfWord(fields[0], sep, [sep] + Join(fields[1..], sep));
      var tail := Join(fields[1..], sep);
      assert ([sep] + tail)[1..] == tail;
      assert Fields([sep] + tail, sep) == [""] + Fields(tail, sep);
      assert Join(fields, sep) == fields[0] + ([sep] + tail);
      assert fields[0] + "" == fields[0];
      assert fields == [fields[0]] + fields[1..];
    }
  }

  /** A separator-free word in front of `rest` joins the first field of `rest`. */
  lemma {:induction false} FieldsOfWord(w: string, sep: char, rest: string)
    requires sep !in w
    ensures var f := Fields(rest, sep); Fields(w + rest, sep) == [w + f[0]] + f[1..]
  {
    if |w| > 0 {
      var f := Fields(rest, sep);
      FieldsOfWord(w[1..], sep, rest);
      HeadTail(w, rest);
      FieldsCons(w[0], w[1..] + rest, sep);
      HeadTail(w, f[0]);
    } else {
      FieldsOfEmptyWord(w, sep, rest);
    }
  }

  lemma {:induction false} HeadTail(w: string, x: string)
    requires |w| > 0
    ensures w + x == [w[0]] + (w[1..] + x)
  {
  }

  lemma {:induction false} FieldsOfEmptyWord(w: string, sep: char, rest: string)
    requires |w| == 0
    ensures var f := Fields(rest, sep); Fields(w + rest, sep) == [w + f[0]] + f[1..]
  {
    var f := Fields(rest, sep);
    assert w + rest == rest;
    assert w + f[0] == f[0];
    assert [f[0]] + f[1..] == f;
  }

  /** One character in front: a separator opens an empty field, anything else joins the first field. */
  lemma {:induction false} FieldsCons(c: char, s: string, sep: char)
    ensures Fields([c] + s, sep) == if c == sep then [""] + Fields(s, sep) else [[c] + Fields(s, sep)[0]] + Fields(s, sep)[1..]
  {
    assert ([c] + s)[0] == c && ([c] + s)[1..] == s;
  }

  /** The second field of a join of separator-free fields, when it is not trailing-empty. */
  lemma {:induction false} SecondFieldOfJoin(fields: seq<string>, sep: char)
    requires |fields| >= 2 && fields[1] != ""
    requires forall i :: 0 <= i < |fields| ==> sep !in fields[i]
    ensures SecondField(Join(fields, sep), sep) == Some(fields[1])
  {
    FieldsOfJoin(fields, sep);
  }

  /** A leading separator opens with an empty field. */
  lemma {:induction false} FieldsOfSep(sep: char, rest: string)
    ensures Fields([sep] + rest, sep) == [""] + Fields(rest, sep)
  {
    assert ([sep] + rest)[0] == sep && ([sep] + rest)[1..] == rest;
  }

  /** Two separator-free words, each followed by the separator, are the first two fields. */
  lemma {:induction false} FieldsOfTwo(a: string, b: string, sep: char, rest: string)
    requires sep !in a && sep !in b
    ensures Fields(a + ([sep] + (b + ([sep] + rest))), sep) == [a, b] + Fields(rest, sep)
  {
    var t := b + [sep] + rest;
    Reassociate(a, b, sep, rest);
    FieldsAppend(a, t, sep);
    FieldsAppend(b, rest, sep);
    FieldsOfWordAlone(a, sep);
    FieldsOfWordAlone(b, sep);
    ConsTwo(a, b, Fields(rest, sep));
  }

  lemma {:induction false} Reassociate(a: string, b: string, sep: char, rest: string)
    ensures a + ([sep] + (b + ([sep] + rest))) == a + [sep] + (b + [sep] + rest)
  {
  }

  lemma {:induction false} ConsTwo<T>(x: T, y: T, s: seq<T>)
    ensures [x] + ([y] + s) == [x, y] + s
  {
  }

  /** The field after the first separator, when it is not empty, is the second field. */
  lemma {:induction false} SecondFieldOfPrefix(a: string, b: string, sep: char, rest: string)
    requires sep !in a && sep !in b && b != ""
    ensures SecondField(a + [sep] + b + [sep] + rest, sep) == Some(b)
  {
    FieldsOfTwo(a, b, sep, rest);
    assert a + [sep] + b + [sep] + rest == a + ([sep] + (b + ([sep] + rest)));
    var f := Fields(a + ([sep] + (b + ([sep] + rest))), sep);
    assert f[1] == b;
  }

  /** Splitting at one separator splits each side on its own. */
  lemma {:induction false} FieldsAppend(a: string, b: string, sep: char)
    ensures Fields(a + [sep] + b, sep) == Fields(a, sep) + Fields(b, sep)
  {
    var fa, fb := Fields(a, sep), Fields(b, sep);
    JoinAppend(fa, fb, sep);
    JoinFields(a, sep);
    JoinFields(b, sep);
    FieldsOfJoin(fa + fb, sep);
  }

  /** Joining two non-empty lists puts one separator between their joins. */
  lemma {:induction false} JoinAppend(x: seq<string>, y: seq<string>, sep: char)
    requires |x| >= 1 && |y| >= 1
    ensures Join(x + y, sep) == Join(x, sep) + [sep] + Join(y, sep)
  {
    if |x| == 1 {
      assert (x + y)[1..] == y;
    } else {
      JoinAppend(x[1..], y, sep);
      assert (x + y)[1..] == x[1..] + y;
    }
  }

  /** A join of seven words, written out. */
  lemma {:induction false} JoinSeven(ws: seq<string>, sep: char)
    requires |ws| == 7
    ensures Join(ws, sep) == ws[0] + [sep] + ws[1] + [sep] + ws[2] + [sep] + ws[3] + [sep] + ws[4] + [sep] + ws[5] + [sep] + ws[6]
  {
    assert Join(ws[6..], sep) == ws[6];
    assert Join(ws[5..], sep) == ws[5] + [sep] + Join(ws[6..], sep) by { assert ws[5..][1..] == ws[6..]; }
    assert Join(ws[4..], sep) == ws[4] + [sep] + Join(ws[5..], sep) by { assert ws[4..][1..] == ws[5..]; }
    assert Join(ws[3..], sep) == ws[3] + [sep] + Join(ws[4..], sep) by { assert ws[3..][1..] == ws[4..]; }
    assert Join(ws[2..], sep) == ws[2] + [sep] + Join(ws[3..], sep) by { assert ws[2..][1..] == ws[3..]; }
    assert Join(ws[1..], sep) == ws[1] + [sep] + Join(ws[2..], sep) by { assert ws[1..][1..] == ws[2..]; }
    assert Join(ws, sep) == ws[0] + [sep] + Join(ws[1..], sep);
  }

  /** Separator-free words after a separator are the last fields. */
  lemma {:induction false} FieldsAfterJoin(p: string, ws: seq<string>, sep: char)
    requires |ws| >= 1 && forall i :: 0 <= i < |ws| ==> sep !in ws[i]
    ensures Fields(p + [sep] + Join(ws, sep), sep) == Fields(p, sep) + ws
  {
    FieldsAppend(p, Join(ws, sep), sep);
    FieldsOfJoin(ws, sep);
  }

  /** A separator-free word is a single field. */
  lemma {:induction false} FieldsOfWordAlone(w: string, sep: char)
    requires sep !in w
    ensures Fields(w, sep) == [w]
  {
    FieldsOfWord(w, sep, "");
    assert w + "" == w;
  }

  /** A separator-free word after a separator is the last field. */
  lemma {:induction false} FieldsSnoc(a: string, w: string, sep: char)
    requires sep !in w
    ensures Fields(a + [sep] + w, sep) == Fields(a, sep) + [w]
  {
    FieldsAppend(a, w, sep);
    FieldsOfWordAlone(w, sep);
  }

  /** Removes the trailing empty fields, as `String#split` does without a limit. */
  function DropTrailingEmpty(fields: seq<string>): (r: seq<string>)
    ensures |r| <= |fields| && r == fields[..|r|]
    ensures forall k :: |r| <= k < |fields| ==> fields[k] == ""
    ensures |r| > 0 ==> r[|r| - 1] != ""
  {
    if |fields| == 0 then []
    else if fields[|fields| - 1] == "" then DropTrailingEmpty(fields[..|fields| - 1])
    else fields
  }

  /** Ruby's `s.split(sep)` for a one-character separator. */
  function Split(s: string, sep: char): seq<string>
  {
    DropTrailingEmpty(Fields(s, sep))
  }

  /** `s.split(sep)[1]`: the second field, or `nil` when the split yields fewer than two fields. */
  function SecondField(s: string, sep: char): (r: Option<string>)
    ensures r.Some? <==> exists k :: 1 <= k < |Fields(s, sep)| && Fields(s, sep)[k] != ""
    ensures r.Some? ==> r.value == Fields(s, sep)[1] && sep !in r.value
  {
    var f := Split(s, sep);
    assert f == Fields(s, sep)[..|f|];
    if |f| >= 2 then
      assert Fields(s, sep)[|f| - 1] != "";
      Some(f[1])
    else None
  }

  /** `s.split(sep).first`, where `nil` formats as the empty string. */
  function FirstField(s: string, sep: char): (r: string)
    ensures r <= s && sep !in r
    ensures |r| == |s| || s[|r|] == sep
  {
    var f := Split(s, sep);
    if |f| == 0 then "" else f[0]
  }

  // ---------------------------------------------------------------------------------------
  // String slicing
  // ---------------------------------------------------------------------------------------

  /** Ruby's `s[start, len]`: a negative start counts from the end; out of range gives `nil`. */
  function Slice(s: string, start: int, len: int): (r: Option<string>)
    ensures r.Some? <==> len >= 0 && -|s| <= start <= |s|
    ensures r.Some? ==> |r.value| <= len
  {
    if len < 0 then None
    else
      var b := if start < 0 then start + |s| else start;
      if b < 0 || b > |s| then None
      else Some(s[b .. if b + len > |s| then |s| else b + len])
  }

  /** Ruby's `s[a...b]` (end excluded): negative ends count from the end, a start past the end gives `nil`. */
  function SliceRange(s: string, a: int, b: int): (r: Option<string>)
    ensures r.Some? <==> -|s| <= a <= |s|
  {
    var lo := if a < 0 then a + |s| else a;
    var hi0 := if b < 0 then b + |s| else b;
    if lo < 0 || lo > |s| then None
    else
      var hi := if hi0 > |s| then |s| else hi0;
      Some(if hi <= lo then "" else s[lo..hi])
  }

  // ---------------------------------------------------------------------------------------
  // Case mapping (ASCII letters only)
  // ---------------------------------------------------------------------------------------

  function LowerChar(c: char): char
  {
    if 'A' <= c <= 'Z' then (c as int + 32) as char else c
  }

  function UpperChar(c: char): char
  {
    if 'a' <= c <= 'z' then (c as int - 32) as char else c
  }

  function Downcase(s: string): (r: string)
    ensures |r| == |s| && forall i :: 0 <= i < |s| ==> r[i] == LowerChar(s[i])
  {
    seq(|s|, i requires 0 <= i < |s| => LowerChar(s[i]))
  }

  function Upcase(s: string): (r: string)
    ensures |r| == |s| && forall i :: 0 <= i < |s| ==> r[i] == UpperChar(s[i])
  {
    seq(|s|, i requires 0 <= i < |s| => UpperChar(s[i]))
  }

  // ---------------------------------------------------------------------------------------
  // String#index
  // ---------------------------------------------------------------------------------------

  predicate OccursAt(s: string, sub: string, i: int)
  {
    0 <= i && i + |sub| <= |s| && s[i..i + |sub|] == sub
  }

  function IndexFrom(s: string, sub: string, i: nat): (r: Option<nat>)
    requires i <= |s|
    ensures r.Some? ==> i <= r.value && OccursAt(s, sub, r.value)
    ensures r.Some? ==> forall j :: i <= j < r.value ==> !OccursAt(s, sub, j)
    ensures r.None? ==> forall j :: i <= j ==> !OccursAt(s, sub, j)
    decreases |s| - i
  {
    if i + |sub| > |s| then None
    else if s[i..i + |sub|] == sub then Some(i)
    else IndexFrom(s, sub, i + 1)
  }

  /** Ruby's `s.index(sub)`: the first position where `sub` occurs, or `nil`. */
  function Index(s: string, sub: string): (r: Option<nat>)
    ensures r.Some? ==> OccursAt(s, sub, r.value) && forall j :: 0 <= j < r.value ==> !OccursAt(s, sub, j)
    ensures r.None? ==> forall j :: !OccursAt(s, sub, j)
  {
    IndexFrom(s, sub, 0)
  }

  // ---------------------------------------------------------------------------------------
  // Integer#to_s and "%s" of an integer
  // ---------------------------------------------------------------------------------------

  predicate IsDigit(c: char)
  {
    '0' <= c <= '9'
  }

  function DigitChar(d: nat): (c: char)
    requires d < 10
    ensures IsDigit(c)
  {
    ('0' as int + d) as char
  }

  /** Decimal digits of `n`, without leading zeros. */
  function NatToString(n: nat): (r: string)
    ensures |r| >= 1 && forall i :: 0 <= i < |r| ==> IsDigit(r[i])
    ensures r[0] == '0' <==> n == 0
  {
    if n < 10 then [DigitChar(n)] else NatToString(n / 10) + [DigitChar(n % 10)]
  }

  function IntToString(i: int): string
  {
    if i < 0 then "-" + NatToString(-i) else NatToString(i)
  }

  function ParseNat(s: string): nat
    requires forall i :: 0 <= i < |s| ==> IsDigit(s[i])
  {
    if |s| == 0 then 0
    else
      assert IsDigit(s[|s| - 1]);
      ParseNat(s[..|s| - 1]) * 10 + (s[|s| - 1] as int - '0' as int)
  }

  function ParseInt(s: string): int
    requires |s| > 0
    requires forall i :: (if s[0] == '-' then 1 else 0) <= i < |s| ==> IsDigit(s[i])
  {
    if s[0] == '-' then -(ParseNat(s[1..]) as int) else ParseNat(s)
  }

  lemma {:induction false} ParseNatToString(n: nat)
    ensures ParseNat(NatToString(n)) == n
  {
    if n >= 10 {
      ParseNatToString(n / 10);
      var r := NatToString(n);
      assert r[..|r| - 1] == NatToString(n / 10);
    }
  }

  /** Printing an integer and reading it back gives the same integer. */
  lemma {:induction false} ParseIntToString(i: int)
    ensures |IntToString(i)| > 0
    ensures var s := IntToString(i);
            (forall k :: (if s[0] == '-' then 1 else 0) <= k < |s| ==> IsDigit(s[k])) && ParseInt(s) == i
  {
    var s := IntToString(i);
    if i < 0 {
      ParseNatToString(-i);
      assert s[1..] == NatToString(-i);
    } else {
      ParseNatToString(i);
    }
  }

  /** A decimal integer as `Integer#to_s` prints it: an optional '-' and then digits. */
  predicate IsNumeral(s: string)
  {
    |s| > 0 && forall k :: (if s[0] == '-' then 1 else 0) <= k < |s| ==> IsDigit(s[k])
  }

  /** Reads a numeral back, `nil` for anything else. */
  function ReadInt(s: string): (r: Option<int>)
    ensures r.Some? <==> IsNumeral(s)
  {
    if IsNumeral(s) then Some(ParseInt(s)) else None
  }

  /** A printed integer is a numeral that reads back as itself, and holds only digits and '-'. */
  lemma {:induction false} ReadIntToString(i: int)
    ensures ReadInt(IntToString(i)) == Some(i)
    ensures forall k :: 0 <= k < |IntToString(i)| ==> IsDigit(IntToString(i)[k]) || IntToString(i)[k] == '-'
  {
    ParseIntToString(i);
  }

  // ---------------------------------------------------------------------------------------
  // gsub(/\W/, "_")
  // ---------------------------------------------------------------------------------------

  predicate IsWordChar(c: char)
  {
    ('a' <= c <= 'z') || ('A' <= c <= 'Z') || IsDigit(c) || c == '_'
  }

  /** Replaces every character outside `[A-Za-z0-9_]` by `_`. */
  function ReplaceNonWord(s: string): (r: string)
    ensures |r| == |s|
    ensures forall i :: 0 <= i < |s| ==> IsWordChar(r[i]) && (IsWordChar(s[i]) ==> r[i] == s[i])
  {
    seq(|s|, i requires 0 <= i < |s| => if IsWordChar(s[i]) then s[i] else '_')
  }
}
