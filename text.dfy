/** The pieces of Python string handling that the serialisers rely on:
    `str(n)` and `int(s)` for non-negative integers, `sep.join(parts)`,
    `s.split(sep)`, and character counting. */
module Text {
  import opened Base

  predicate IsDigit(c: char) {
    '0' <= c <= '9'
  }

  predicate AllDigits(s: string) {
    forall i :: 0 <= i < |s| ==> IsDigit(s[i])
  }

  function DigitChar(d: nat): (c: char)
    requires d < 10
    ensures IsDigit(c)
  {
    ('0' as int + d) as char
  }

  function DigitValue(c: char): (d: nat)
    requires IsDigit(c)
    ensures d < 10 && DigitChar(d) == c
  {
    c as int - '0' as int
  }

  /** `str(n)` for a non-negative integer: its decimal numeral, without
      leading zeros. */
  function Decimal(n: nat): (s: string)
    ensures |s| >= 1 && AllDigits(s)
    ensures s[0] == '0' <==> n == 0
    decreases n
  {
    if n < 10 then [DigitChar(n)] else Decimal(n / 10) + [DigitChar(n % 10)]
  }

  /** `int(s)` on a string of ASCII digits (the empty string reads as 0;
      callers that follow Python reject it before calling). */
  function ParseDecimal(s: string): nat
    requires AllDigits(s)
  {
    if s == [] then 0 else ParseDecimal(s[..|s| - 1]) * 10 + DigitValue(s[|s| - 1])
  }

  /** Reading back a rendered numeral gives the number. */
  lemma {:induction false} ParseDecimalOfDecimal(n: nat)
    ensures ParseDecimal(Decimal(n)) == n
    decreases n
  {
    var s := Decimal(n);
    if n >= 10 {
      assert s[..|s| - 1] == Decimal(n / 10);
      ParseDecimalOfDecimal(n / 10);
    }
  }

  /** Rendering is injective: distinct numbers have distinct numerals. */
  lemma DecimalInjective(m: nat, n: nat)
    requires Decimal(m) == Decimal(n)
    ensures m == n
  {
    ParseDecimalOfDecimal(m);
    ParseDecimalOfDecimal(n);
  }

  /** Regrouping a concatenation of three sequences. */
  lemma AppendAssoc<T>(a: seq<T>, b: seq<T>, c: seq<T>)
    ensures (a + b) + c == a + (b + c)
  {
  }

  /** Number of occurrences of `c` in `s`. */
  function CountChar(s: string, c: char): nat
  {
    if s == [] then 0 else CountChar(s[..|s| - 1], c) + (if s[|s| - 1] == c then 1 else 0)
  }

  lemma {:induction false} CountCharAppend(a: string, b: string, c: char)
    ensures CountChar(a + b, c) == CountChar(a, c) + CountChar(b, c)
    decreases |b|
  {
    if b != [] {
      assert (a + b)[..|a + b| - 1] == a + b[..|b| - 1];
      CountCharAppend(a, b[..|b| - 1], c);
    } else {
      assert a + b == a;
    }
  }

  lemma {:induction false} CountCharAbsent(s: string, c: char)
    requires c !in s
    ensures CountChar(s, c) == 0
    decreases |s|
  {
    if s != [] {
      CountCharAbsent(s[..|s| - 1], c);
    }
  }

  /** `sep.join(parts)`: the parts with one separator between neighbours. */
  function Join(parts: seq<string>, sep: char): string
  {
    if |parts| == 0 then ""
    else if |parts| == 1 then parts[0]
    else Join(parts[..|parts| - 1], sep) + [sep] + parts[|parts| - 1]
  }

  /** `s.split(sep)`: the maximal separator-free pieces, always at least one
      (so `"".split(",") == [""]`). */
  function Split(s: string, sep: char): (pieces: seq<string>)
    ensures |pieces| >= 1
  {
    if s == [] then [""]
    else
      var init := Split(s[..|s| - 1], sep);
      if s[|s| - 1] == sep then init + [""]
      else init[..|init| - 1] + [init[|init| - 1] + [s[|s| - 1]]]
  }

  lemma {:induction false} SplitNoSeparator(b: string, sep: char)
    requires sep !in b
    ensures Split(b, sep) == [b]
    decreases |b|
  {
    if b != [] {
      SplitNoSeparator(b[..|b| - 1], sep);
      assert b[..|b| - 1] + [b[|b| - 1]] == b;
    }
  }

  lemma {:induction false} SplitAfterSeparator(a: string, b: string, sep: char)
    requires sep !in b
    ensures Split(a + [sep] + b, sep) == Split(a, sep) + [b]
    decreases |b|
  {
    var s := a + [sep] + b;
    if b == [] {
      assert s[..|s| - 1] == a;
    } else {
      var b' := b[..|b| - 1];
      assert s[..|s| - 1] == a + [sep] + b';
      SplitAfterSeparator(a, b', sep);
      assert b' + [b[|b| - 1]] == b;
    }
  }

  /** Splitting a join returns the parts, provided there is at least one
      part and no part contains the separator. */
  lemma {:induction false} SplitOfJoin(parts: seq<string>, sep: char)
    requires |parts| >= 1
    requires forall i :: 0 <= i < |parts| ==> sep !in parts[i]
    ensures Split(Join(parts, sep), sep) == parts
    decreases |parts|
  {
    if |parts| == 1 {
      SplitNoSeparator(parts[0], sep);
    } else {
      var init := parts[..|parts| - 1];
      SplitAfterSeparator(Join(init, sep), parts[|parts| - 1], sep);
      SplitOfJoin(init, sep);
      assert init + [parts[|parts| - 1]] == parts;
    }
  }

  /** A join holds one separator fewer than it has parts. */
  lemma {:induction false} CountCharJoin(parts: seq<string>, sep: char)
    requires |parts| >= 1
    requires forall i :: 0 <= i < |parts| ==> sep !in parts[i]
    ensures CountChar(Join(parts, sep), sep) == |parts| - 1
    decreases |parts|
  {
    if |parts| == 1 {
      CountCharAbsent(parts[0], sep);
    } else {
      var init := parts[..|parts| - 1];
      CountCharJoin(init, sep);
      CountCharAppend(Join(init, sep) + [sep], parts[|parts| - 1], sep);
      CountCharAppend(Join(init, sep), [sep], sep);
      assert [sep][..0] == [];
      CountCharAbsent(parts[|parts| - 1], sep);
    }
  }

  /** Whitespace as far as the serialisers produce it. */
  predicate IsSpace(c: char) {
    c == ' ' || c == '\n' || c == '\t' || c == '\r'
  }

  /** The string with every whitespace character removed. */
  function RemoveSpaces(s: string): string
  {
    if s == [] then ""
    else RemoveSpaces(s[..|s| - 1]) + (if IsSpace(s[|s| - 1]) then "" else [s[|s| - 1]])
  }

  lemma {:induction false} RemoveSpacesAppend(a: string, b: string)
    ensures RemoveSpaces(a + b) == RemoveSpaces(a) + RemoveSpaces(b)
    decreases |b|
  {
    if b == [] {
      assert a + b == a;
    } else {
      assert (a + b)[..|a + b| - 1] == a + b[..|b| - 1];
      RemoveSpacesAppend(a, b[..|b| - 1]);
    }
  }

  lemma {:induction false} RemoveSpacesOfDigits(s: string)
    requires AllDigits(s)
    ensures RemoveSpaces(s) == s
    decreases |s|
  {
    if s != [] {
      RemoveSpacesOfDigits(s[..|s| - 1]);
      assert s[..|s| - 1] + [s[|s| - 1]] == s;
    }
  }

  lemma DigitsHaveNoSeparator(s: string, c: char)
    requires AllDigits(s) && !IsDigit(c)
    ensures c !in s
  {
  }

  /** `str(b)` for each byte, in order. */
  function Numerals(data: seq<Byte>): (r: seq<string>)
    ensures |r| == |data|
    ensures forall i :: 0 <= i < |r| ==> r[i] == Decimal(data[i])
  {
    seq(|data|, i requires 0 <= i < |data| => Decimal(data[i]))
  }

  /** `int(p)` for each piece, failing (as Python's `int` raises) on an empty
      or non-numeric piece, or on a value that is not a byte. */
  function ParseNumerals(pieces: seq<string>): (r: Option<seq<Byte>>)
    ensures r.Some? ==> |r.value| == |pieces|
  {
    if pieces == [] then Some([])
    else
      var last := pieces[|pieces| - 1];
      match ParseNumerals(pieces[..|pieces| - 1])
      case None => None
      case Some(init) =>
        if last == [] || !AllDigits(last) || ParseDecimal(last) >= 256 then None
        else Some(init + [ParseDecimal(last)])
  }

  lemma {:induction false} ParseNumeralsOfNumerals(data: seq<Byte>)
    ensures ParseNumerals(Numerals(data)) == Some(data)
    decreases |data|
  {
    if data != [] {
      var init := data[..|data| - 1];
      assert Numerals(data)[..|data| - 1] == Numerals(init);
      ParseNumeralsOfNumerals(init);
      ParseDecimalOfDecimal(data[|data| - 1]);
      assert init + [data[|data| - 1]] == data;
    }
  }

  /** Reads a comma-separated list of byte numerals, as the array literal's
      body; the empty body is the empty list. */
  function ParseByteList(body: string): Option<seq<Byte>>
  {
    if body == "" then Some([]) else ParseNumerals(Split(body, ','))
  }

  /** The comma-joined numerals of some bytes split back into those numerals. */
  lemma SplitJoinedNumerals(data: seq<Byte>)
    requires data != []
    ensures Split(Join(Numerals(data), ','), ',') == Numerals(data)
    ensures CountChar(Join(Numerals(data), ','), ',') == |data| - 1
  {
    var parts := Numerals(data);
    forall i | 0 <= i < |parts| ensures ',' !in parts[i] {
      DigitsHaveNoSeparator(parts[i], ',');
    }
    SplitOfJoin(parts, ',');
    CountCharJoin(parts, ',');
  }

  /** Reading back the comma-joined numerals gives the bytes, for any length. */
  lemma ParseByteListOfJoin(data: seq<Byte>)
    ensures ParseByteList(Join(Numerals(data), ',')) == Some(data)
  {
    if data != [] {
      SplitJoinedNumerals(data);
      assert Join(Numerals(data), ',') != "" by {
        assert Join(Numerals(data), ',') == "" ==> Split(Join(Numerals(data), ','), ',') == [""];
      }
      ParseNumeralsOfNumerals(data);
    }
  }

  /** Index of the first occurrence of c in s, or |s| when there is none. */
  function FirstIndex(s: string, c: char): (k: nat)
    ensures k <= |s| && forall j :: 0 <= j < k ==> s[j] != c
    ensures k < |s| ==> s[k] == c
  {
    if s == [] then 0
    else if s[0] == c then 0
    else FirstIndex(s[1..], c) + 1
  }

  lemma FirstIndexAfter(a: string, b: string, c: char)
    requires c !in a && b != [] && b[0] == c
    ensures FirstIndex(a + b, c) == |a|
  {
    assert (a + b)[|a|] == c;
    assert forall j :: 0 <= j < |a| ==> (a + b)[j] == a[j];
  }
}
