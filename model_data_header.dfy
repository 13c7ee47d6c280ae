/** The writer loop of Final_Project/Soru2/convert_tflite_to_c.py: the model's
    bytes become a C++ header `model_data.h` holding an array literal, twelve
    numerals to a line, and a length constant. The file is modelled as the
    text written to it. */
module ModelDataHeader {
  import opened Base
  import opened Text

  const ArrayName: string := "g_yolo_model_data"
  const PerLine: int := 12

  /** The array declaration line, written after the include line. */
  function Declaration(): string {
    "const unsigned char " + ArrayName + "[] = {\n  "
  }

  /** The length constant, the last line written, for n input bytes. */
  function LengthLine(n: nat): string {
    LengthPrefix() + Decimal(n) + ";\n"
  }

  /** The text of the length constant up to its value. */
  function LengthPrefix(): string {
    "const unsigned int " + ArrayName + "_len = "
  }

  /** What is written before the loop. */
  function Preamble(): string {
    "#include <cstdint>\n\n" + Declaration()
  }

  /** What is written after the loop, for n input bytes. */
  function Closing(n: nat): string {
    "\n};\n" + LengthLine(n)
  }

  /** What iteration i of the loop writes: the numeral, a ", " unless it is
      the last byte, and a line break after every twelfth byte. */
  function Piece(data: seq<Byte>, i: int): string
    requires 0 <= i < |data|
  {
    Decimal(data[i]) + (if i != |data| - 1 then ", " else "") + (if (i + 1) % PerLine == 0 then "\n  " else "")
  }

  /** What the first k iterations write. */
  function BodyUpTo(data: seq<Byte>, k: int): string
    requires 0 <= k <= |data|
  {
    if k == 0 then "" else BodyUpTo(data, k - 1) + Piece(data, k - 1)
  }

  /** The array body: what the whole loop writes. */
  function Body(data: seq<Byte>): string {
    BodyUpTo(data, |data|)
  }

  /** One iteration of the loop: append the numeral of byte i, then ", "
      unless it is the last byte, then a line break after every twelfth byte. */
  method WritePiece(out: string, data: seq<Byte>, i: int) returns (out': string)
    requires 0 <= i < |data|
    ensures out' == out + Piece(data, i)
  {
    ghost var written := Decimal(data[i]);
    out' := out + Decimal(data[i]);
    if i != |data| - 1 {
      AppendAssoc(out, written, ", ");
      out', written := out' + ", ", written + ", ";
    }
    if (i + 1) % PerLine == 0 {
      AppendAssoc(out, written, "\n  ");
      out', written := out' + "\n  ", written + "\n  ";
    }
    assert written == Piece(data, i);
  }

  /** `main` without the file handling: the text written to the header file. */
  method WriteModelHeader(data: seq<Byte>) returns (out: string)
    ensures out == Preamble() + Body(data) + Closing(|data|)
  {
    out := "#include <cstdint>\n\n";
    out := out + Declaration();
    for i := 0 to |data|
      invariant out == Preamble() + BodyUpTo(data, i)
    {
      AppendAssoc(Preamble(), BodyUpTo(data, i), Piece(data, i));
      out := WritePiece(out, data, i);
    }
    ghost var body := out;
    out := out + "\n};\n";
    out := out + LengthLine(|data|);
    AppendAssoc(body, "\n};\n", LengthLine(|data|));
  }

  lemma PieceCounts(data: seq<Byte>, i: int)
    requires 0 <= i < |data|
    ensures CountChar(Piece(data, i), ',') == if i != |data| - 1 then 1 else 0
    ensures CountChar(Piece(data, i), '\n') == if (i + 1) % PerLine == 0 then 1 else 0
  {
    var d := Decimal(data[i]);
    var sep := if i != |data| - 1 then ", " else "";
    var br := if (i + 1) % PerLine == 0 then "\n  " else "";
    DigitsHaveNoSeparator(d, ',');
    DigitsHaveNoSeparator(d, '\n');
    CountCharAbsent(d, ',');
    CountCharAbsent(d, '\n');
    CountCharAppend(d + sep, br, ',');
    CountCharAppend(d, sep, ',');
    CountCharAppend(d + sep, br, '\n');
    CountCharAppend(d, sep, '\n');
    SeparatorFacts();
  }

  /** How the two literals the loop writes between numerals count and strip. */
  lemma SeparatorFacts()
    ensures CountChar(", ", ',') == 1 && CountChar(", ", '\n') == 0
    ensures CountChar("\n  ", ',') == 0 && CountChar("\n  ", '\n') == 1
    ensures RemoveSpaces(", ") == "," && RemoveSpaces("\n  ") == ""
  {
    assert ", "[..1] == "," && ","[..0] == "";
    assert "\n  "[..2] == "\n " && "\n "[..1] == "\n" && "\n"[..0] == "";
  }

  /** Separators: the first k iterations write one ", " for each byte they
      handle except the last byte of the input, so the body holds |data| - 1
      commas and none follows the last numeral. */
  lemma {:induction false} CommaCount(data: seq<Byte>, k: int)
    requires 0 <= k <= |data|
    ensures CountChar(BodyUpTo(data, k), ',') == if k == |data| && k > 0 then k - 1 else k
    decreases k
  {
    if k > 0 {
      CommaCount(data, k - 1);
      PieceCounts(data, k - 1);
      CountCharAppend(BodyUpTo(data, k - 1), Piece(data, k - 1), ',');
    }
  }

  /** Line breaks: after k iterations exactly k / 12 breaks have been written,
      so a break follows byte i exactly when i + 1 is a multiple of 12. */
  lemma {:induction false} LineBreakCount(data: seq<Byte>, k: int)
    requires 0 <= k <= |data|
    ensures CountChar(BodyUpTo(data, k), '\n') == k / PerLine
    decreases k
  {
    if k > 0 {
      LineBreakCount(data, k - 1);
      PieceCounts(data, k - 1);
      CountCharAppend(BodyUpTo(data, k - 1), Piece(data, k - 1), '\n');
    }
  }

  lemma PieceWithoutSpaces(data: seq<Byte>, i: int)
    requires 0 <= i < |data|
    ensures RemoveSpaces(Piece(data, i)) == Decimal(data[i]) + (if i != |data| - 1 then "," else "")
  {
    var d := Decimal(data[i]);
    var sep := if i != |data| - 1 then ", " else "";
    var br := if (i + 1) % PerLine == 0 then "\n  " else "";
    RemoveSpacesAppend(d + sep, br);
    RemoveSpacesAppend(d, sep);
    RemoveSpacesOfDigits(d);
    SeparatorFacts();
  }

  /** The numerals of the first k bytes are those of the first k - 1 bytes
      followed by the numeral of byte k - 1. */
  lemma NumeralsPrefix(data: seq<Byte>, k: int)
    requires 0 < k <= |data|
    ensures |Numerals(data[..k])| == k
    ensures Numerals(data[..k])[..k - 1] == Numerals(data[..k - 1])
    ensures Numerals(data[..k])[k - 1] == Decimal(data[k - 1])
  {
    assert data[..k][..k - 1] == data[..k - 1];
  }

  /** Stripping whitespace from two adjacent writes, when the first strips to
      a join followed by its owed comma. */
  lemma StripStep(prev: string, piece: string, j: string, d: string, owed: string)
    requires RemoveSpaces(prev) == j + "," && RemoveSpaces(piece) == d + owed
    ensures RemoveSpaces(prev + piece) == (j + [','] + d) + owed
  {
    RemoveSpacesAppend(prev, piece);
    assert (j + ",") + (d + owed) == (j + [','] + d) + owed;
  }

  /** The first iteration's text without whitespace. */
  lemma BodyWithoutSpacesFirst(data: seq<Byte>)
    requires 0 < |data|
    ensures RemoveSpaces(BodyUpTo(data, 1)) == Join(Numerals(data[..1]), ',') + (if 1 < |data| then "," else "")
  {
    var piece := Piece(data, 0);
    assert BodyUpTo(data, 1) == "" + piece == piece;
    PieceWithoutSpaces(data, 0);
    NumeralsPrefix(data, 1);
    assert Numerals(data[..1]) == [Decimal(data[0])];
  }

  /** One more iteration, without whitespace: the numeral joins the list
      after the comma the previous iteration owed. */
  lemma BodyWithoutSpacesStep(data: seq<Byte>, k: int)
    requires 1 < k <= |data|
    requires RemoveSpaces(BodyUpTo(data, k - 1)) == Join(Numerals(data[..k - 1]), ',') + ","
    ensures RemoveSpaces(BodyUpTo(data, k)) == Join(Numerals(data[..k]), ',') + (if k < |data| then "," else "")
  {
    var prev, piece := BodyUpTo(data, k - 1), Piece(data, k - 1);
    var d := Decimal(data[k - 1]);
    var owed := if k < |data| then "," else "";
    assert BodyUpTo(data, k) == prev + piece;
    PieceWithoutSpaces(data, k - 1);
    NumeralsPrefix(data, k);
    var j := Join(Numerals(data[..k - 1]), ',');
    assert Join(Numerals(data[..k]), ',') == j + [','] + d;
    StripStep(prev, piece, j, d, owed);
  }

  /** With whitespace removed, the first k iterations' text is the numerals of
      the first k bytes joined by "," (plus the separator still owed when more
      bytes follow). */
  lemma {:induction false} BodyWithoutSpaces(data: seq<Byte>, k: int)
    requires 0 < k <= |data|
    ensures RemoveSpaces(BodyUpTo(data, k)) == Join(Numerals(data[..k]), ',') + (if k < |data| then "," else "")
    decreases k
  {
    if k == 1 {
      BodyWithoutSpacesFirst(data);
    } else {
      BodyWithoutSpaces(data, k - 1);
      BodyWithoutSpacesStep(data, k);
    }
  }

  /** Round trip: removing whitespace from the body and reading the
      comma-separated numerals gives back the input bytes, in order. */
  lemma ParseBody(data: seq<Byte>)
    ensures data != [] ==> Split(RemoveSpaces(Body(data)), ',') == Numerals(data)
    ensures ParseByteList(RemoveSpaces(Body(data))) == Some(data)
  {
    if data == [] {
      ParseByteListOfJoin(data);
    } else {
      BodyWithoutSpaces(data, |data|);
      assert data[..|data|] == data;
      assert RemoveSpaces(Body(data)) == Join(Numerals(data), ',');
      SplitJoinedNumerals(data);
      ParseByteListOfJoin(data);
    }
  }

  /** Where the three parts of a text a + b + (c + d) lie. */
  lemma Framed(a: string, b: string, c: string, d: string)
    ensures var out := a + b + (c + d);
      |out| >= |a| + |c| + |d| && out[..|a|] == a &&
      out[|out| - |d|..] == d && out[|out| - |d| - |c|..|out| - |d|] == c
  {
  }

  /** The text ends, from position k on, with a length constant: "_len = ",
      then a numeral whose value is n, then the final ";\n". */
  predicate LengthValueAt(out: string, k: int, n: nat) {
    |LengthPrefix()| <= k < |out| - 2 && out[k - |LengthPrefix()|..k] == LengthPrefix() &&
    out[|out| - 2..] == ";\n" && AllDigits(out[k..|out| - 2]) && ParseDecimal(out[k..|out| - 2]) == n
  }

  /** Where the parts of a text front + p + v + ";\n" lie. */
  lemma ValueBetween(front: string, p: string, v: string)
    ensures var out := front + (p + v + ";\n");
      |out| >= |front| + |p| + 2 && out[|front|..|front| + |p|] == p &&
      out[|out| - 2..] == ";\n" && out[|front| + |p|..|out| - 2] == v
  {
  }

  /** Any text ending in the length line for n carries the value n there. */
  lemma LengthValueOfLine(front: string, n: nat)
    ensures LengthValueAt(front + LengthLine(n), |front| + |LengthPrefix()|, n)
  {
    var p := LengthPrefix();
    ValueBetween(front, p, Decimal(n));
    ParseDecimalOfDecimal(n);
  }

  /** The text opens with the include and the array declaration, closes the
      array with "\n};\n" and ends with a length constant whose value is the
      input length. */
  lemma OutputFrame(data: seq<Byte>, out: string)
    requires out == Preamble() + Body(data) + Closing(|data|)
    ensures |out| >= |Preamble()| && out[..|Preamble()|] == Preamble()
    ensures var suffix := LengthLine(|data|);
      |out| >= |suffix| + 4 && out[|out| - |suffix|..] == suffix && out[|out| - |suffix| - 4..|out| - |suffix|] == "\n};\n"
    ensures exists k :: LengthValueAt(out, k, |data|)
  {
    var front := Preamble() + Body(data) + "\n};\n";
    Framed(Preamble(), Body(data), "\n};\n", LengthLine(|data|));
    AppendAssoc(Preamble() + Body(data), "\n};\n", LengthLine(|data|));
    LengthValueOfLine(front, |data|);
  }
}
