/**
 * FASTA serialisation shared by LTRs and putative ERVs: the header comment, the file name,
 * the record written to disk, and the rule that an existing file is never overwritten.
 * The filesystem is an abstract map from paths to file contents.
 */
module FastaPrinter {
  import opened Wrappers
  import opened RubyCore

  /** What an element exposes to the printer: definition, accession, strand, `from`, `to`, `length`. */
  datatype Span = Span(definition: string, accession: string, plus: bool, from: int, to: int, length: int)

  /** The pair `{comment:, sequence:}` of `fasta_hash`. */
  datatype FastaRecord = FastaRecord(comment: string, sequence: string)

  function StrandSign(plus: bool): string
  {
    if plus then "+" else "-"
  }

  function StrandWord(plus: bool): string
  {
    if plus then "plus" else "minus"
  }

  /** The text of the header up to the strand sign: "> DEF (ACC (". */
  function CommentHead(s: Span): string
  {
    "> " + s.definition + " (" + s.accession + " ("
  }

  /** `fasta_comment`: "> DEF (ACC (S) FROM to TO, LEN nt. long)". */
  function FastaComment(s: Span): string
  {
    CommentHead(s) + StrandSign(s.plus) + CommentCoords(s) + " nt. long)"
  }

  /** The text between the strand sign and the unit: ") FROM to TO, LEN". */
  function CommentCoords(s: Span): string
  {
    ") " + IntToString(s.from) + " to " + IntToString(s.to) + ", " + IntToString(s.length)
  }

  /** The header opens with the definition and accession, carries '+' exactly on the plus strand, and closes with the unit. */
  lemma {:induction false} CommentLayout(s: Span)
    ensures var c := FastaComment(s); var h := CommentHead(s);
            |c| > |h| + 10 && c[..|h|] == h && (c[|h|] == '+' <==> s.plus) && (c[|h|] == '-' <==> !s.plus)
            && c[|c| - 10..] == " nt. long)"
  {
    Layout(CommentHead(s), StrandSign(s.plus), CommentCoords(s), " nt. long)");
  }

  lemma {:induction false} Layout(h: string, sign: string, mid: string, tail: string)
    requires |sign| == 1
    ensures var c := h + sign + mid + tail;
            |c| == |h| + 1 + |mid| + |tail| && c[..|h|] == h && c[|h|] == sign[0] && c[|c| - |tail|..] == tail
  {
    var c := h + sign + mid + tail;
    assert c == (h + sign + mid) + tail;
    assert c == h + (sign + mid + tail);
  }

  /** The header is one line when the definition and accession are. */
  lemma {:induction false} CommentIsOneLine(s: Span)
    requires '\n' !in s.definition && '\n' !in s.accession
    ensures '\n' !in FastaComment(s)
  {
    ParseIntToString(s.from);
    ParseIntToString(s.to);
    ParseIntToString(s.length);
    NoNewlineInNumber(s.from);
    NoNewlineInNumber(s.to);
    NoNewlineInNumber(s.length);
  }

  lemma {:induction false} NoNewlineInNumber(i: int)
    ensures '\n' !in IntToString(i)
  {
    var s := IntToString(i);
    if i < 0 {
      assert s == "-" + NatToString(-i);
      assert forall k :: 1 <= k < |s| ==> s[k] == NatToString(-i)[k - 1];
    }
  }

  /** What a header tells a reader of the FASTA file: accession, strand, `from`, `to`, `length`. */
  datatype Header = Header(accession: string, plus: bool, from: int, to: int, length: int)

  /**
   * Reads a header back from its last eight space-separated words,
   * "(ACC", "(S)", FROM, "to", "TO,", LEN, "nt." and "long)"; `nil` when they do not fit.
   */
  function ParseComment(c: string): Option<Header>
  {
    var f := Fields(c, ' ');
    var n := |f|;
    if n < 8 || f[n - 5] != "to" || f[n - 2] != "nt." || f[n - 1] != "long)" then None
    else if f[n - 7] != "(+)" && f[n - 7] != "(-)" then None
    else if |f[n - 8]| == 0 || f[n - 8][0] != '(' || |f[n - 4]| == 0 || f[n - 4][|f[n - 4]| - 1] != ',' then None
    else
      match (ReadInt(f[n - 6]), ReadInt(f[n - 4][..|f[n - 4]| - 1]), ReadInt(f[n - 3]))
      case (Some(from), Some(to), Some(length)) => Some(Header(f[n - 8][1..], f[n - 7] == "(+)", from, to, length))
      case _ => None
  }

  /** The header carries the span's accession (when it has no space in it), strand, `from`, `to` and `length`. */
  lemma {:induction false} CommentRoundTrip(s: Span)
    requires ' ' !in s.accession
    ensures ParseComment(FastaComment(s)) == Some(Header(s.accession, s.plus, s.from, s.to, s.length))
  {
    var h := "> " + s.definition + " (" + s.accession;
    var sg, from, to, len := StrandSign(s.plus), IntToString(s.from), IntToString(s.to), IntToString(s.length);
    var ws := ["(" + sg + ")", from, "to", to + ",", len, "nt.", "long)"];
    CommentWords(s);
    NumberWord(s.from);
    NumberWord(s.to);
    NumberWord(s.length);
    assert ' ' !in ws[0] && ' ' !in ws[3];
    FieldsAfterJoin(h, ws, ' ');
    AccessionWord("> " + s.definition, s.accession);
    ReadIntToString(s.from);
    ReadIntToString(s.to);
    ReadIntToString(s.length);
    ReadWords(FastaComment(s), Fields(h, ' '), s.accession, s.plus, from, to, len);
  }

  /** A text whose last eight words are those of a header reads back as that header. */
  lemma {:induction false} ReadWords(c: string, fp: seq<string>, acc: string, plus: bool, from: string, to: string, len: string)
    requires |fp| >= 1 && fp[|fp| - 1] == "(" + acc
    requires Fields(c, ' ') == fp + ["(" + StrandSign(plus) + ")", from, "to", to + ",", len, "nt.", "long)"]
    requires ReadInt(from).Some? && ReadInt(to).Some? && ReadInt(len).Some?
    ensures ParseComment(c) == Some(Header(acc, plus, ReadInt(from).value, ReadInt(to).value, ReadInt(len).value))
  {
    var f := Fields(c, ' ');
    var n := |f|;
    assert f[n - 8] == "(" + acc && f[n - 7] == "(" + StrandSign(plus) + ")";
    assert f[n - 6] == from && f[n - 5] == "to" && f[n - 4] == to + "," && f[n - 3] == len;
    assert f[n - 2] == "nt." && f[n - 1] == "long)";
    assert (to + ",")[..|to|] == to && |to + ","| - 1 == |to| && (to + ",")[|to|] == ',';
    assert ("(" + acc)[1..] == acc && ("(" + acc)[0] == '(';
    if plus {
      assert "(" + StrandSign(plus) + ")" == "(+)";
    } else {
      assert "(" + StrandSign(plus) + ")" == "(-)";
    }
  }

  /** The header is the definition-and-accession part, a space, and seven space-free words. */
  lemma {:induction false} CommentWords(s: Span)
    ensures FastaComment(s) == "> " + s.definition + " (" + s.accession + [' '] +
                               Join(["(" + StrandSign(s.plus) + ")", IntToString(s.from), "to", IntToString(s.to) + ",",
                                     IntToString(s.length), "nt.", "long)"], ' ')
  {
    CommentFlat(s.definition, s.accession, StrandSign(s.plus), IntToString(s.from), IntToString(s.to), IntToString(s.length));
    FlatJoin("> " + s.definition + " (" + s.accession, StrandSign(s.plus), IntToString(s.from), IntToString(s.to), IntToString(s.length));
  }

  lemma {:induction false} FlatJoin(h: string, sg: string, f: string, t: string, l: string)
    ensures h + " (" + sg + ") " + f + " to " + t + ", " + l + " nt. long)"
         == h + [' '] + Join(["(" + sg + ")", f, "to", t + ",", l, "nt.", "long)"], ' ')
  {
    var ws := ["(" + sg + ")", f, "to", t + ",", l, "nt.", "long)"];
    JoinSeven(ws, ' ');
    var x2 := h + [' '] + ("(" + sg + ")") + [' '] + f;
    var x5 := x2 + [' '] + "to" + [' '] + (t + ",") + [' '] + l;
    GlueStrand(h, sg, f);
    GlueCoords(x2, t, l);
    GlueUnit(x5);
  }

  /** The nesting of `FastaComment` is the flat format string. */
  lemma {:induction false} CommentFlat(d: string, a: string, sg: string, f: string, t: string, l: string)
    ensures ("> " + d + " (" + a + " (") + sg + (") " + f + " to " + t + ", " + l) + " nt. long)"
         == "> " + d + " (" + a + " (" + sg + ") " + f + " to " + t + ", " + l + " nt. long)"
  {
  }

  lemma {:induction false} GlueStrand(h: string, sg: string, f: string)
    ensures h + " (" + sg + ") " + f == h + [' '] + ("(" + sg + ")") + [' '] + f
  {
  }

  lemma {:induction false} GlueCoords(x: string, t: string, l: string)
    ensures x + " to " + t + ", " + l == x + [' '] + "to" + [' '] + (t + ",") + [' '] + l
  {
  }

  lemma {:induction false} GlueUnit(x: string)
    ensures x + " nt. long)" == x + [' '] + "nt." + [' '] + "long)"
  {
  }

  /** A space-free accession is the last word of "> DEF (ACC". */
  lemma {:induction false} AccessionWord(head: string, acc: string)
    requires ' ' !in acc
    ensures var f := Fields(head + " (" + acc, ' '); |f| >= 2 && f[|f| - 1] == "(" + acc
  {
    assert head + " (" + acc == head + [' '] + ("(" + acc);
    FieldsSnoc(head, "(" + acc, ' ');
  }

  /** A printed number has no space in it. */
  lemma {:induction false} NumberWord(i: int)
    ensures ' ' !in IntToString(i)
  {
    ReadIntToString(i);
  }

  /** `fasta_filename`: "<definition up to its first comma> ACC plus|minus FROM TO.fasta". */
  function FastaFilename(s: Span): (r: string)
    ensures var d := FirstField(s.definition, ',');
            d <= r && d <= s.definition && ',' !in d && (|d| == |s.definition| || s.definition[|d|] == ',')
    ensures |r| >= 6 && r[|r| - 6..] == ".fasta"
  {
    FirstField(s.definition, ',') + " " + s.accession + " " + StrandWord(s.plus) + " "
      + IntToString(s.from) + " " + IntToString(s.to) + ".fasta"
  }

  /** What a file name tells a reader: accession, strand, `from`, `to`. */
  datatype NameFields = NameFields(accession: string, plus: bool, from: int, to: int)

  /** Reads a file name back from its last four space-separated words, ACC, "plus"/"minus", FROM and "TO.fasta". */
  function ParseFilename(name: string): Option<NameFields>
  {
    var f := Fields(name, ' ');
    var n := |f|;
    if n < 4 || (f[n - 3] != "plus" && f[n - 3] != "minus") || |f[n - 1]| < 6 || f[n - 1][|f[n - 1]| - 6..] != ".fasta" then None
    else
      match (ReadInt(f[n - 2]), ReadInt(f[n - 1][..|f[n - 1]| - 6]))
      case (Some(from), Some(to)) => Some(NameFields(f[n - 4], f[n - 3] == "plus", from, to))
      case _ => None
  }

  /** The file name carries the span's accession (when it has no space in it), strand, `from` and `to`. */
  lemma {:induction false} FilenameRoundTrip(s: Span)
    requires ' ' !in s.accession
    ensures ParseFilename(FastaFilename(s)) == Some(NameFields(s.accession, s.plus, s.from, s.to))
  {
    var d := FirstField(s.definition, ',');
    var w, from, to := StrandWord(s.plus), IntToString(s.from), IntToString(s.to);
    var ws := [w, from, to + ".fasta"];
    NameJoin(d, s.accession, w, from, to);
    NumberWord(s.from);
    NumberWord(s.to);
    assert ' ' !in w && ' ' !in ws[2];
    FieldsAfterJoin(d + " " + s.accession, ws, ' ');
    assert d + " " + s.accession == d + [' '] + s.accession;
    FieldsSnoc(d, s.accession, ' ');
    ReadIntToString(s.from);
    ReadIntToString(s.to);
    ReadNameWords(FastaFilename(s), Fields(d + " " + s.accession, ' '), s.accession, s.plus, from, to);
  }

  /** A text whose last four words are those of a file name reads back as that name. */
  lemma {:induction false} ReadNameWords(name: string, fp: seq<string>, acc: string, plus: bool, from: string, to: string)
    requires |fp| >= 1 && fp[|fp| - 1] == acc
    requires Fields(name, ' ') == fp + [StrandWord(plus), from, to + ".fasta"]
    requires ReadInt(from).Some? && ReadInt(to).Some?
    ensures ParseFilename(name) == Some(NameFields(acc, plus, ReadInt(from).value, ReadInt(to).value))
  {
    var f := Fields(name, ' ');
    var n := |f|;
    assert f[n - 4] == acc && f[n - 3] == StrandWord(plus) && f[n - 2] == from && f[n - 1] == to + ".fasta";
    assert (to + ".fasta")[..|to|] == to && (to + ".fasta")[|to|..] == ".fasta";
  }

  /** The file name is the definition-and-accession part, a space, and three space-free words. */
  lemma {:induction false} NameJoin(d: string, acc: string, w: string, from: string, to: string)
    ensures d + " " + acc + " " + w + " " + from + " " + to + ".fasta" == d + " " + acc + [' '] + Join([w, from, to + ".fasta"], ' ')
  {
    var ws := [w, from, to + ".fasta"];
    assert Join(ws[2..], ' ') == to + ".fasta";
    assert Join(ws[1..], ' ') == from + [' '] + (to + ".fasta") by { assert ws[1..][1..] == ws[2..]; }
    assert Join(ws, ' ') == w + [' '] + Join(ws[1..], ' ');
  }

  /** `fasta_hash`: the header comment paired with the element's (possibly pared) sequence. */
  function FastaHash(s: Span, sequence: string): FastaRecord
  {
    FastaRecord(FastaComment(s), sequence)
  }

  /** What `write_fasta!` writes for one record: comment, newline, sequence, blank line. */
  function RecordText(rec: FastaRecord): string
  {
    rec.comment + "\n" + rec.sequence + "\n\n"
  }

  /** Reads a record back: the header is the text before the first newline, the sequence the rest without the closing blank line. */
  function ParseRecordText(text: string): Option<FastaRecord>
  {
    match Index(text, "\n")
    case None => None
    case Some(k) =>
      if |text| < k + 3 || text[|text| - 2..] != "\n\n" then None
      else Some(FastaRecord(text[..k], text[k + 1..|text| - 2]))
  }

  /** A record whose comment is one line reads back as itself. */
  lemma {:induction false} RecordRoundTrip(rec: FastaRecord)
    requires '\n' !in rec.comment
    ensures ParseRecordText(RecordText(rec)) == Some(rec)
  {
    var text := RecordText(rec);
    var k := |rec.comment|;
    assert OccursAt(text, "\n", k);
    forall j | 0 <= j < k ensures !OccursAt(text, "\n", j) {
      assert text[j] == rec.comment[j];
    }
    assert Index(text, "\n") == Some(k);
    assert text[..k] == rec.comment;
    assert text[k + 1..|text| - 2] == rec.sequence;
  }

  /** `File.join(directory, name)`. */
  function JoinPath(directory: string, name: string): string
  {
    if |directory| > 0 && directory[|directory| - 1] == '/' then directory + name else directory + "/" + name
  }

  /** `write_fasta!` on an abstract filesystem: the record goes to `directory/filename` unless that path exists. */
  function WriteFasta(fs: map<string, string>, directory: string, s: Span, sequence: string): (r: map<string, string>)
    ensures var path := JoinPath(directory, FastaFilename(s));
            && r.Keys == fs.Keys + {path}
            && (forall p :: p in fs ==> r[p] == fs[p])
            && (path !in fs ==> r[path] == RecordText(FastaHash(s, sequence)))
  {
    var path := JoinPath(directory, FastaFilename(s));
    if path in fs then fs else fs[path := RecordText(FastaHash(s, sequence))]
  }

  /** Writing the same element twice leaves the filesystem as writing it once. */
  lemma {:induction false} WriteFastaIdempotent(fs: map<string, string>, directory: string, s: Span, sequence: string, other: string)
    ensures WriteFasta(WriteFasta(fs, directory, s, sequence), directory, s, other) == WriteFasta(fs, directory, s, sequence)
  {
  }
}
