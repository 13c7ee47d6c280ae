/** `to_c_array` of Odev5/Chapter12/PythonScripts/convert_tflite_to_c.py:
    a model file's bytes rendered as a C header and a C source file. */
module TfliteCArray {
  import opened Base
  import opened Text

  /** The two generated texts: the `.h` content and the `.c` content. */
  datatype CFiles = CFiles(header: string, source: string)

  function IncludeLine(varname: string): string {
    "#include \"" + varname + ".h\"\n"
  }

  /** Everything in the `.c` content before the array body. */
  function SourcePrefix(varname: string): string {
    IncludeLine(varname) + "\nconst unsigned char " + varname + "[] = {"
  }

  /** Everything between the array body and the length numeral. */
  function LengthPrefix(varname: string): string {
    "};\nconst unsigned int " + varname + "_len = "
  }

  /** The array body: the bytes' numerals joined by "," with no spaces. */
  function ArrayBody(data: seq<Byte>): string {
    Join(Numerals(data), ',')
  }

  /** `to_c_array(bytes_data, varname)`: the `.c` content is the f-string
      cut at the array body and at the length numeral. */
  function ToCArray(data: seq<Byte>, varname: string): (r: CFiles)
    ensures |r.source| >= |IncludeLine(varname)| && r.source[..|IncludeLine(varname)|] == IncludeLine(varname)
    ensures r.header ==
      "#pragma once\n" +
      "extern const unsigned char " + varname + "[];\n" +
      "extern const unsigned int " + varname + "_len;\n"
  {
    var arr := ArrayBody(data);
    var contentC := SourcePrefix(varname) + arr + LengthPrefix(varname) + Decimal(|data|) + ";\n";
    var header :=
      "#pragma once\n" +
      "extern const unsigned char " + varname + "[];\n" +
      "extern const unsigned int " + varname + "_len;\n";
    assert contentC == IncludeLine(varname) + (contentC[|IncludeLine(varname)|..]);
    CFiles(header, contentC)
  }

  /** For non-empty input the body has |data| - 1 commas, and splitting it on
      "," gives one numeral per byte whose value is that byte. */
  lemma ArrayBodyElements(data: seq<Byte>)
    requires data != []
    ensures CountChar(ArrayBody(data), ',') == |data| - 1
    ensures var parts := Split(ArrayBody(data), ',');
      |parts| == |data| &&
      forall i :: 0 <= i < |parts| ==>
        parts[i] != "" && AllDigits(parts[i]) && ParseDecimal(parts[i]) == data[i] < 256
  {
    SplitJoinedNumerals(data);
    forall i | 0 <= i < |data| ensures ParseDecimal(Decimal(data[i])) == data[i] {
      ParseDecimalOfDecimal(data[i]);
    }
  }

  /** Empty input: the array literal is `{}` and the length constant is 0. */
  lemma EmptyInput(varname: string)
    ensures ToCArray([], varname).source ==
      SourcePrefix(varname) + "};\nconst unsigned int " + varname + "_len = 0;\n"
  {
  }

  /** Reads a generated `.c` content back: the bytes of its array literal and
      the value of its length constant, or None if the text does not have the
      generated shape. */
  function ParseSource(source: string, varname: string): Option<(seq<Byte>, nat)>
  {
    ParseFramed(source, SourcePrefix(varname), LengthPrefix(varname))
  }

  /** The reader for a given text before the array body (p) and between the
      body and the length numeral (t): the body runs up to the first '}', and
      the numeral up to the final ";\n". */
  function ParseFramed(source: string, p: string, t: string): Option<(seq<Byte>, nat)>
  {
    if |source| < |p| || source[..|p|] != p then None
    else
      var rest := source[|p|..];
      var k := FirstIndex(rest, '}');
      var body, tail := rest[..k], rest[k..];
      if |tail| < |t| + 2 || tail[..|t|] != t || tail[|tail| - 2..] != ";\n" then None
      else
        var numeral := tail[|t|..|tail| - 2];
        if numeral == [] || !AllDigits(numeral) then None
        else
          match ParseByteList(body)
          case None => None
          case Some(bytes) => Some((bytes, ParseDecimal(numeral)))
  }

  /** On text of the framed shape, the reader returns the parsed body and the
      parsed length numeral, for any frame whose middle part opens with '}'. */
  lemma ParseFramedOfShape(p: string, t: string, body: string, numeral: string)
    requires t != [] && t[0] == '}'
    requires '}' !in body && numeral != [] && AllDigits(numeral)
    ensures ParseFramed(p + body + t + numeral + ";\n", p, t) ==
      match ParseByteList(body)
      case None => None
      case Some(bytes) => Some((bytes, ParseDecimal(numeral)))
  {
    var tail := t + numeral + ";\n";
    var source := p + body + t + numeral + ";\n";
    assert source == p + (body + tail);
    assert source[..|p|] == p;
    var rest := source[|p|..];
    assert rest == body + tail;
    FirstIndexAfter(body, tail, '}');
    assert rest[..|body|] == body && rest[|body|..] == tail;
    assert tail[..|t|] == t && tail[|tail| - 2..] == ";\n";
    assert tail[|t|..|tail| - 2] == numeral;
  }

  /** On text of the generated shape, the reader returns the parsed body
      and the parsed length numeral. */
  lemma ParseSourceOfShape(varname: string, body: string, numeral: string)
    requires '}' !in body && numeral != [] && AllDigits(numeral)
    ensures ParseSource(SourcePrefix(varname) + body + LengthPrefix(varname) + numeral + ";\n", varname) ==
      match ParseByteList(body)
      case None => None
      case Some(bytes) => Some((bytes, ParseDecimal(numeral)))
  {
    ParseFramedOfShape(SourcePrefix(varname), LengthPrefix(varname), body, numeral);
  }

  /** Round trip: the `.c` content gives back the input bytes, and its length
      constant is the number of input bytes. */
  lemma ParseSourceOfToCArray(data: seq<Byte>, varname: string)
    ensures ParseSource(ToCArray(data, varname).source, varname) == Some((data, |data|))
  {
    forall i | 0 <= i < |data| ensures '}' !in Decimal(data[i]) {
      DigitsHaveNoSeparator(Decimal(data[i]), '}');
    }
    JoinAvoids(Numerals(data), ',', '}');
    assert ToCArray(data, varname).source ==
      SourcePrefix(varname) + ArrayBody(data) + LengthPrefix(varname) + Decimal(|data|) + ";\n";
    ParseSourceOfShape(varname, ArrayBody(data), Decimal(|data|));
    ParseByteListOfJoin(data);
    ParseDecimalOfDecimal(|data|);
  }

  /** A join contains a character only if some part or the separator does. */
  lemma {:induction false} JoinAvoids(parts: seq<string>, sep: char, c: char)
    requires c != sep && forall i :: 0 <= i < |parts| ==> c !in parts[i]
    ensures c !in Join(parts, sep)
    decreases |parts|
  {
    if |parts| > 1 {
      JoinAvoids(parts[..|parts| - 1], sep, c);
    }
  }
}
