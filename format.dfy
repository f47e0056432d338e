/**
 * The text format of the people file. `save_people` prints every record with
 * "%s %s %s %d\n"; `load_people` calls fscanf(file, "%s %s %s %d", ...) until a
 * call does not convert all four fields, end of file is reached or `max`
 * records are read. Both are modelled here as pure functions over the file's
 * text, fscanf one character at a time, so that the round trip and the "stop
 * at the first malformed group" rule are lemmas.
 */
module Format {
  import opened Wrappers
  import opened People

  /** The result of a scan: the values read and the input left after them. */
  datatype Scan<T> = Scan(item: T, rest: string)

  // ---------------------------------------------------------------------------
  // Decimal numerals, as `%d` prints and reads them
  // ---------------------------------------------------------------------------

  predicate IsDigit(c: char) {
    '0' <= c <= '9'
  }

  predicate AllDigits(s: string) {
    forall i :: 0 <= i < |s| ==> IsDigit(s[i])
  }

  function DigitValue(c: char): nat
    requires IsDigit(c)
  {
    c as int - '0' as int
  }

  function DigitChar(d: nat): (c: char)
    requires d < 10
    ensures IsDigit(c) && DigitValue(c) == d
  {
    ('0' as int + d) as char
  }

  /** The digits `%d` prints for a non-negative value: most significant first, no leading zero. */
  function NatDigits(n: nat): (s: string)
    ensures |s| > 0 && AllDigits(s)
    ensures |s| > 1 ==> s[0] != '0'
    decreases n
  {
    if n < 10 then [DigitChar(n)] else NatDigits(n / 10) + [DigitChar(n % 10)]
  }

  /**
   * The text `%d` prints for `i`: a minus sign before the digits of a negative
   * value. Its digits have the value |i|.
   */
  function Decimal(i: int): (r: string)
    ensures |r| > 0
    ensures r[0] == '-' <==> i < 0
    ensures var d := if i < 0 then r[1..] else r;
      |d| > 0 && AllDigits(d) && Horner(0, d) == if i < 0 then -i else i
    ensures var d := if i < 0 then r[1..] else r;
      |d| > 1 ==> d[0] != '0'
  {
    HornerOfNatDigits(if i < 0 then -i else i);
    if i < 0 then "-" + NatDigits(-i) else NatDigits(i)
  }

  /** The value of the digits `d` read after the value `m` of the digits before them. */
  function Horner(m: nat, d: string): nat
    requires AllDigits(d)
    decreases |d|
  {
    if d == [] then m else Horner(m * 10 + DigitValue(d[0]), d[1..])
  }

  /** One more digit multiplies the value read so far by ten and adds the digit. */
  lemma {:induction false} HornerSnoc(m: nat, d: string, c: char)
    requires AllDigits(d) && IsDigit(c)
    ensures AllDigits(d + [c])
    ensures Horner(m, d + [c]) == Horner(m, d) * 10 + DigitValue(c)
    decreases |d|
  {
    if d != [] {
      assert (d + [c])[1..] == d[1..] + [c];
      HornerSnoc(m * 10 + DigitValue(d[0]), d[1..], c);
    }
  }

  /** Reading back the digits printed for `n` gives `n`. */
  lemma {:induction false} HornerOfNatDigits(n: nat)
    ensures Horner(0, NatDigits(n)) == n
  {
    if n >= 10 {
      HornerSnoc(0, NatDigits(n / 10), DigitChar(n % 10));
      HornerOfNatDigits(n / 10);
    }
  }

  // ---------------------------------------------------------------------------
  // fscanf, one character at a time
  // ---------------------------------------------------------------------------

  /** The conversion specifications load_people's format uses: `%s` and `%d`. */
  datatype Conversion = StringConv | IntConv

  /** A converted value: the text stored by `%s` or the number stored by `%d`. */
  datatype Value = Text(text: string) | Number(number: int)

  /** Where fscanf is within the current conversion. */
  datatype Phase =
    | Between                                   // skipping the white space before a conversion
    | InWord(text: string)                      // inside `%s`: the characters stored so far
    | AfterSign(negative: bool)                 // inside `%d`: a sign read, no digit yet
    | InNumber(negative: bool, magnitude: nat)  // inside `%d`: the value of the digits read so far

  /** A phase inside a conversion belongs to the conversion at the head of the format. */
  predicate Fits(format: seq<Conversion>, phase: Phase) {
    match phase
    case Between => true
    case InWord(_) => format != [] && format[0] == StringConv
    case AfterSign(_) => format != [] && format[0] == IntConv
    case InNumber(_, _) => format != [] && format[0] == IntConv
  }

  /** The value a `%d` stores: the digits' value, negated after a '-'. */
  function SignedValue(negative: bool, magnitude: nat): int {
    if negative then -(magnitude as int) else magnitude
  }

  /**
   * fscanf from `phase` on, with `values` already converted: each conversion
   * skips white space; `%s` stores the following run of non-white-space
   * characters; `%d` reads an optional sign and at least one decimal digit.
   * Scanning stops at the end of the format, at end of input before a
   * conversion, or where a `%d` finds no digit. The result is every value
   * converted (fscanf returns how many) and the input not consumed.
   */
  function ScanFrom(s: string, format: seq<Conversion>, phase: Phase, values: seq<Value>): (r: Scan<seq<Value>>)
    requires Fits(format, phase)
    decreases |s|, |format|
  {
    if format == [] then Scan(values, s)
    else
      match phase
      case Between =>
        if s == [] then Scan(values, s)
        else if IsSpace(s[0]) then ScanFrom(s[1..], format, Between, values)
        else if format[0] == StringConv then ScanFrom(s[1..], format, InWord([s[0]]), values)
        else if s[0] == '-' || s[0] == '+' then ScanFrom(s[1..], format, AfterSign(s[0] == '-'), values)
        else if IsDigit(s[0]) then ScanFrom(s[1..], format, InNumber(false, DigitValue(s[0])), values)
        else Scan(values, s)
      case InWord(w) =>
        if s != [] && !IsSpace(s[0]) then ScanFrom(s[1..], format, InWord(w + [s[0]]), values)
        else ScanFrom(s, format[1..], Between, values + [Text(w)])
      case AfterSign(negative) =>
        if s != [] && IsDigit(s[0]) then ScanFrom(s[1..], format, InNumber(negative, DigitValue(s[0])), values)
        else Scan(values, s)
      case InNumber(negative, m) =>
        if s != [] && IsDigit(s[0]) then ScanFrom(s[1..], format, InNumber(negative, m * 10 + DigitValue(s[0])), values)
        else ScanFrom(s, format[1..], Between, values + [Number(SignedValue(negative, m))])
  }

  /** `t` is what is left of `s` after some of its characters are consumed. */
  predicate IsSuffix(t: string, s: string) {
    |t| <= |s| && t == s[|s| - |t|..]
  }

  /** What fscanf leaves unread is what follows the characters it consumed. */
  lemma {:induction false} ScanFromRest(s: string, format: seq<Conversion>, phase: Phase, values: seq<Value>)
    requires Fits(format, phase)
    ensures IsSuffix(ScanFrom(s, format, phase, values).rest, s)
    decreases |s|, |format|
  {
    if s != [] {
      var t := ScanFrom(s, format, phase, values).rest;
      if |t| < |s| {
        assert s[1..][|s| - 1 - |t|..] == s[|s| - |t|..];
      }
    }
    if format != [] {
      match phase
      case Between =>
        if s != [] {
          if IsSpace(s[0]) {
            ScanFromRest(s[1..], format, Between, values);
          } else if format[0] == StringConv {
            ScanFromRest(s[1..], format, InWord([s[0]]), values);
          } else if s[0] == '-' || s[0] == '+' {
            ScanFromRest(s[1..], format, AfterSign(s[0] == '-'), values);
          } else if IsDigit(s[0]) {
            ScanFromRest(s[1..], format, InNumber(false, DigitValue(s[0])), values);
          }
        }
      case InWord(w) =>
        if s != [] && !IsSpace(s[0]) {
          ScanFromRest(s[1..], format, InWord(w + [s[0]]), values);
        } else {
          ScanFromRest(s, format[1..], Between, values + [Text(w)]);
        }
      case AfterSign(negative) =>
        if s != [] && IsDigit(s[0]) {
          ScanFromRest(s[1..], format, InNumber(negative, DigitValue(s[0])), values);
        }
      case InNumber(negative, m) =>
        if s != [] && IsDigit(s[0]) {
          ScanFromRest(s[1..], format, InNumber(negative, m * 10 + DigitValue(s[0])), values);
        } else {
          ScanFromRest(s, format[1..], Between, values + [Number(SignedValue(negative, m))]);
        }
    }
  }

  /** fscanf keeps the values converted before and stores at most one value per conversion. */
  lemma {:induction false} ScanFromValues(s: string, format: seq<Conversion>, phase: Phase, values: seq<Value>)
    requires Fits(format, phase)
    ensures var item := ScanFrom(s, format, phase, values).item;
      |values| <= |item| <= |values| + |format| && item[..|values|] == values
    decreases |s|, |format|
  {
    if format != [] {
      match phase
      case Between =>
        if s != [] {
          if IsSpace(s[0]) {
            ScanFromValues(s[1..], format, Between, values);
          } else if format[0] == StringConv {
            ScanFromValues(s[1..], format, InWord([s[0]]), values);
          } else if s[0] == '-' || s[0] == '+' {
            ScanFromValues(s[1..], format, AfterSign(s[0] == '-'), values);
          } else if IsDigit(s[0]) {
            ScanFromValues(s[1..], format, InNumber(false, DigitValue(s[0])), values);
          }
        }
      case InWord(w) =>
        if s != [] && !IsSpace(s[0]) {
          ScanFromValues(s[1..], format, InWord(w + [s[0]]), values);
        } else {
          ScanFromValues(s, format[1..], Between, values + [Text(w)]);
        }
      case AfterSign(negative) =>
        if s != [] && IsDigit(s[0]) {
          ScanFromValues(s[1..], format, InNumber(negative, DigitValue(s[0])), values);
        }
      case InNumber(negative, m) =>
        if s != [] && IsDigit(s[0]) {
          ScanFromValues(s[1..], format, InNumber(negative, m * 10 + DigitValue(s[0])), values);
        } else {
          ScanFromValues(s, format[1..], Between, values + [Number(SignedValue(negative, m))]);
        }
    }
  }

  /** One fscanf call with the conversions `format`, on the input `s`. */
  function Fscanf(s: string, format: seq<Conversion>): Scan<seq<Value>> {
    ScanFrom(s, format, Between, [])
  }

  /** "%s %s %s %d": first name, last name, phone number, age. */
  const RecordFormat: seq<Conversion> := [StringConv, StringConv, StringConv, IntConv]

  /** All four conversions of "%s %s %s %d" were made (fscanf returned 4) and the age fits an `int`. */
  predicate Complete(values: seq<Value>) {
    |values| == 4 && values[0].Text? && values[1].Text? && values[2].Text? && values[3].Number?
    && -0x8000_0000 <= values[3].number < 0x8000_0000
  }

  /** The record the four converted values fill in. */
  function ToPerson(values: seq<Value>): Person
    requires Complete(values)
  {
    Person(values[0].text, values[1].text, values[2].text, values[3].number)
  }

  /**
   * The records `load_people` reads from a file holding `s`: whole groups in
   * file order, at most `max` of them, ending at the first group that does not
   * convert completely or at end of file.
   */
  function ReadPeople(s: string, max: int): (r: seq<Person>)
    ensures |r| <= if max < 0 then 0 else max
    decreases max
  {
    if max <= 0 then []
    else
      var group := Fscanf(s, RecordFormat);
      if Complete(group.item) then [ToPerson(group.item)] + ReadPeople(group.rest, max - 1) else []
  }

  /** Every text value among `values` is a token. */
  predicate TokenTexts(values: seq<Value>) {
    forall i :: 0 <= i < |values| && values[i].Text? ==> IsToken(values[i].text)
  }

  /**
   * Every `%s` value fscanf stores is non-empty and holds no white space, and
   * holds no NUL when the input holds none.
   */
  lemma {:induction false} ScanFromTokens(s: string, format: seq<Conversion>, phase: Phase, values: seq<Value>)
    requires Fits(format, phase)
    requires NulFree(s)
    requires TokenTexts(values)
    requires phase.InWord? ==> IsToken(phase.text)
    ensures TokenTexts(ScanFrom(s, format, phase, values).item)
    decreases |s|, |format|
  {
    if format != [] {
      match phase
      case Between =>
        if s != [] {
          if IsSpace(s[0]) {
            ScanFromTokens(s[1..], format, Between, values);
          } else if format[0] == StringConv {
            ScanFromTokens(s[1..], format, InWord([s[0]]), values);
          } else if s[0] == '-' || s[0] == '+' {
            ScanFromTokens(s[1..], format, AfterSign(s[0] == '-'), values);
          } else if IsDigit(s[0]) {
            ScanFromTokens(s[1..], format, InNumber(false, DigitValue(s[0])), values);
          }
        }
      case InWord(w) =>
        if s != [] && !IsSpace(s[0]) {
          ScanFromTokens(s[1..], format, InWord(w + [s[0]]), values);
        } else {
          ScanFromTokens(s, format[1..], Between, values + [Text(w)]);
        }
      case AfterSign(negative) =>
        if s != [] && IsDigit(s[0]) {
          ScanFromTokens(s[1..], format, InNumber(negative, DigitValue(s[0])), values);
        }
      case InNumber(negative, m) =>
        if s != [] && IsDigit(s[0]) {
          ScanFromTokens(s[1..], format, InNumber(negative, m * 10 + DigitValue(s[0])), values);
        } else {
          ScanFromTokens(s, format[1..], Between, values + [Number(SignedValue(negative, m))]);
        }
    }
  }

  /**
   * Every record load_people reads from a file without NUL characters has
   * three token fields: no field is empty or holds white space or NUL.
   */
  lemma {:induction false} ReadPeopleStorable(s: string, max: int)
    requires NulFree(s)
    ensures AllStorable(ReadPeople(s, max))
    decreases max
  {
    if max > 0 {
      var group := Fscanf(s, RecordFormat);
      if Complete(group.item) {
        ScanFromTokens(s, RecordFormat, Between, []);
        assert Storable(ToPerson(group.item));
        ScanFromRest(s, RecordFormat, Between, []);
        assert NulFree(group.rest);
        ReadPeopleStorable(group.rest, max - 1);
      }
    }
  }

  /**
   * `load_people`: a file that cannot be opened gives no records; no more
   * than `max` records are read; a file without NUL gives storable records.
   */
  function LoadFile(file: Option<string>, max: int): (r: seq<Person>)
    ensures file.None? ==> r == []
    ensures |r| <= if max < 0 then 0 else max
    ensures file.Some? && NulFree(file.value) ==> AllStorable(r)
  {
    match file
    case None => []
    case Some(text) =>
      if NulFree(text) then (ReadPeopleStorable(text, max); ReadPeople(text, max))
      else ReadPeople(text, max)
  }

  // ---------------------------------------------------------------------------
  // What save_people writes
  // ---------------------------------------------------------------------------

  /** The line "%s %s %s %d\n" prints for one record: it ends in the newline. */
  function Line(p: Person): (r: string)
    ensures |r| > 0 && r[|r| - 1] == '\n'
  {
    p.firstName + " " + p.lastName + " " + p.phoneNumber + " " + Decimal(p.age) + "\n"
  }

  /** For a storable record, the newline that ends its line is the line's only one. */
  lemma OneLine(p: Person)
    requires Storable(p)
    ensures forall i :: 0 <= i < |Line(p)| - 1 ==> Line(p)[i] != '\n'
  {
  }

  /**
   * The whole file `save_people` writes: one line per record, in store order.
   * It is empty exactly when there is no record, and otherwise ends in a newline.
   */
  function Serialize(ps: seq<Person>): (r: string)
    ensures r == [] <==> ps == []
    ensures ps != [] ==> r[|r| - 1] == '\n'
  {
    if ps == [] then [] else Line(ps[0]) + Serialize(ps[1..])
  }

  /** Writing one more record appends its line. */
  lemma {:induction false} SerializeSnoc(ps: seq<Person>, p: Person)
    ensures Serialize(ps + [p]) == Serialize(ps) + Line(p)
  {
    SerializeConcat(ps, [p]);
    SerializeOne(p);
  }

  /** The saved text of a single record is its line. */
  lemma {:induction false} SerializeOne(p: Person)
    ensures Serialize([p]) == Line(p)
  {
    assert [p][1..] == [];
    RightUnit(Line(p));
  }

  // ---------------------------------------------------------------------------
  // The round trip
  // ---------------------------------------------------------------------------

  /** White space before a conversion is skipped. */
  lemma SkipBlank(c: char, s: string, format: seq<Conversion>, values: seq<Value>)
    requires IsSpace(c) && format != []
    ensures ScanFrom([c] + s, format, Between, values) == ScanFrom(s, format, Between, values)
  {
    assert ([c] + s)[1..] == s;
  }

  /** Inside `%s`, every non-white-space character is stored. */
  lemma {:induction false} ReadWord(w: string, s: string, format: seq<Conversion>, stored: string, values: seq<Value>)
    requires format != [] && format[0] == StringConv
    requires forall i :: 0 <= i < |w| ==> !IsSpace(w[i])
    ensures ScanFrom(w + s, format, InWord(stored), values) == ScanFrom(s, format, InWord(stored + w), values)
    decreases |w|
  {
    if w != [] {
      assert (w + s)[0] == w[0] && (w + s)[1..] == w[1..] + s;
      assert stored + w == (stored + [w[0]]) + w[1..];
      assert !IsSpace(w[0]);
      assert ScanFrom(w + s, format, InWord(stored), values)
          == ScanFrom(w[1..] + s, format, InWord(stored + [w[0]]), values);
      ReadWord(w[1..], s, format, stored + [w[0]], values);
    } else {
      assert w + s == s && stored + w == stored;
    }
  }

  /** A token followed by white space (or nothing) is read back by one `%s`. */
  lemma ScanToken(w: string, s: string, format: seq<Conversion>, values: seq<Value>)
    requires IsToken(w)
    requires s == [] || IsSpace(s[0])
    requires format != [] && format[0] == StringConv
    ensures ScanFrom(w + s, format, Between, values) == ScanFrom(s, format[1..], Between, values + [Text(w)])
  {
    assert (w + s)[0] == w[0] && (w + s)[1..] == w[1..] + s;
    ReadWord(w[1..], s, format, [w[0]], values);
    assert [w[0]] + w[1..] == w;
  }

  /** Inside `%d`, every decimal digit is added to the value. */
  lemma {:induction false} ReadDigits(d: string, s: string, format: seq<Conversion>, negative: bool, m: nat, values: seq<Value>)
    requires format != [] && format[0] == IntConv
    requires AllDigits(d)
    ensures ScanFrom(d + s, format, InNumber(negative, m), values) == ScanFrom(s, format, InNumber(negative, Horner(m, d)), values)
    decreases |d|
  {
    if d != [] {
      assert (d + s)[0] == d[0] && (d + s)[1..] == d[1..] + s;
      assert IsDigit(d[0]);
      assert ScanFrom(d + s, format, InNumber(negative, m), values)
          == ScanFrom(d[1..] + s, format, InNumber(negative, m * 10 + DigitValue(d[0])), values);
      ReadDigits(d[1..], s, format, negative, m * 10 + DigitValue(d[0]), values);
    } else {
      assert d + s == s;
    }
  }

  /** The digits `%d` prints for `n`, followed by a non-digit (or nothing), are read back from within the conversion. */
  lemma ReadNatDigits(n: nat, s: string, format: seq<Conversion>, negative: bool, values: seq<Value>)
    requires format != [] && format[0] == IntConv
    requires s == [] || !IsDigit(s[0])
    ensures ScanFrom(NatDigits(n)[1..] + s, format, InNumber(negative, DigitValue(NatDigits(n)[0])), values)
         == ScanFrom(s, format[1..], Between, values + [Number(SignedValue(negative, n))])
  {
    var d := NatDigits(n);
    ReadDigits(d[1..], s, format, negative, DigitValue(d[0]), values);
    assert Horner(DigitValue(d[0]), d[1..]) == Horner(0, d);
    HornerOfNatDigits(n);
  }

  /** The text `%d` prints for `i`, followed by a non-digit (or nothing), is read back by one `%d`. */
  lemma ScanDecimal(i: int, s: string, format: seq<Conversion>, values: seq<Value>)
    requires s == [] || !IsDigit(s[0])
    requires format != [] && format[0] == IntConv
    ensures ScanFrom(Decimal(i) + s, format, Between, values) == ScanFrom(s, format[1..], Between, values + [Number(i)])
  {
    if i < 0 {
      ScanNegative(-i, s, format, values);
      assert Decimal(i) + s == ['-'] + NatDigits(-i) + s;
    } else {
      ScanNonNegative(i, s, format, values);
    }
  }

  /** '-' and the digits of `n` are read back by `%d` as -n. */
  lemma ScanNegative(n: nat, s: string, format: seq<Conversion>, values: seq<Value>)
    requires s == [] || !IsDigit(s[0])
    requires format != [] && format[0] == IntConv
    ensures ScanFrom(['-'] + NatDigits(n) + s, format, Between, values)
         == ScanFrom(s, format[1..], Between, values + [Number(-(n as int))])
  {
    var d := NatDigits(n);
    var t := ['-'] + d + s;
    assert t[0] == '-' && t[1..] == [d[0]] + (d[1..] + s);
    assert ([d[0]] + (d[1..] + s))[1..] == d[1..] + s;
    ReadNatDigits(n, s, format, true, values);
  }

  /** The digits of `n` are read back by `%d` as n. */
  lemma ScanNonNegative(n: nat, s: string, format: seq<Conversion>, values: seq<Value>)
    requires s == [] || !IsDigit(s[0])
    requires format != [] && format[0] == IntConv
    ensures ScanFrom(NatDigits(n) + s, format, Between, values)
         == ScanFrom(s, format[1..], Between, values + [Number(n)])
  {
    var d := NatDigits(n);
    var t := d + s;
    assert t[0] == d[0] && t[1..] == d[1..] + s;
    ReadNatDigits(n, s, format, false, values);
  }

  /** A saved line followed by `tail`, with its concatenations grouped from the right. */
  lemma LineThen(p: Person, tail: string)
    ensures Line(p) + tail
         == p.firstName + ([' '] + (p.lastName + ([' '] + (p.phoneNumber + ([' '] + (Decimal(p.age) + (['\n'] + tail)))))))
  {
  }

  /** One saved line, whatever follows it, is converted by one fscanf call into the record's four fields. */
  lemma FscanfOfLine(p: Person, tail: string)
    requires Storable(p)
    ensures Fscanf(Line(p) + tail, RecordFormat)
         == Scan([Text(p.firstName), Text(p.lastName), Text(p.phoneNumber), Number(p.age)], "\n" + tail)
  {
    var f := [Text(p.firstName)];
    var fl := f + [Text(p.lastName)];
    var flp := fl + [Text(p.phoneNumber)];
    var r3 := ['\n'] + tail;
    var r2 := Decimal(p.age) + r3;
    var r1 := p.phoneNumber + ([' '] + r2);
    var r0 := p.lastName + ([' '] + r1);
    LineThen(p, tail);
    assert Line(p) + tail == p.firstName + ([' '] + r0);
    assert RecordFormat[1..] == [StringConv, StringConv, IntConv];
    assert [StringConv, StringConv, IntConv][1..] == [StringConv, IntConv];
    assert [StringConv, IntConv][1..] == [IntConv];
    assert [IntConv][1..] == [];
    calc {
      Fscanf(Line(p) + tail, RecordFormat);
      ScanFrom(p.firstName + ([' '] + r0), RecordFormat, Between, []);
      { ScanToken(p.firstName, [' '] + r0, RecordFormat, []); assert [] + [Text(p.firstName)] == f; }
      ScanFrom([' '] + r0, [StringConv, StringConv, IntConv], Between, f);
      { SkipBlank(' ', r0, [StringConv, StringConv, IntConv], f); }
      ScanFrom(r0, [StringConv, StringConv, IntConv], Between, f);
      { ScanToken(p.lastName, [' '] + r1, [StringConv, StringConv, IntConv], f); }
      ScanFrom([' '] + r1, [StringConv, IntConv], Between, fl);
      { SkipBlank(' ', r1, [StringConv, IntConv], fl); }
      ScanFrom(r1, [StringConv, IntConv], Between, fl);
      { ScanToken(p.phoneNumber, [' '] + r2, [StringConv, IntConv], fl); }
      ScanFrom([' '] + r2, [IntConv], Between, flp);
      { SkipBlank(' ', r2, [IntConv], flp); }
      ScanFrom(r2, [IntConv], Between, flp);
      { ScanDecimal(p.age, r3, [IntConv], flp); }
      ScanFrom(r3, [], Between, flp + [Number(p.age)]);
      Scan(flp + [Number(p.age)], r3);
    }
    assert flp + [Number(p.age)] == [Text(p.firstName), Text(p.lastName), Text(p.phoneNumber), Number(p.age)];
  }

  /** White space before the next group changes nothing that load_people reads. */
  lemma ReadPeopleCons(c: char, s: string, max: int)
    requires IsSpace(c)
    ensures ReadPeople([c] + s, max) == ReadPeople(s, max)
  {
    SkipBlank(c, s, RecordFormat, []);
  }

  /** Reading ends at a group that does not convert completely. */
  lemma ReadPeopleMalformed(s: string, max: int)
    requires !Complete(Fscanf(s, RecordFormat).item)
    ensures ReadPeople(s, max) == []
  {
  }

  /** Reading ends once `max` records are read. */
  lemma ReadPeopleExhausted(s: string, max: int)
    requires max <= 0
    ensures ReadPeople(s, max) == []
  {
  }

  /** One more complete group is one more record, as long as `max` is not yet reached. */
  lemma ReadPeopleStep(s: string, max: int)
    requires max > 0 && Complete(Fscanf(s, RecordFormat).item)
    ensures ReadPeople(s, max)
         == [ToPerson(Fscanf(s, RecordFormat).item)] + ReadPeople(Fscanf(s, RecordFormat).rest, max - 1)
  {
  }

  /** A saved line in front of `tail` contributes its record, then reading goes on with `tail`. */
  lemma ReadLineThen(p: Person, tail: string, max: int)
    requires Storable(p) && max > 0
    ensures ReadPeople(Line(p) + tail, max) == [p] + ReadPeople(tail, max - 1)
  {
    FscanfOfLine(p, tail);
    ReadPeopleStep(Line(p) + tail, max);
    ReadPeopleCons('\n', tail, max - 1);
  }

  /** At end of file fscanf converts nothing. */
  lemma EmptyFileMalformed()
    ensures Fscanf([], RecordFormat).item == []
  {
  }

  /** The saved text of several records, followed by `t`, starts with the first record's line. */
  lemma {:induction false} SerializeThen(ps: seq<Person>, t: string)
    requires ps != []
    ensures Serialize(ps) + t == Line(ps[0]) + (Serialize(ps[1..]) + t)
  {
  }

  lemma ConsThen<T>(s: seq<T>, u: seq<T>)
    requires s != []
    ensures [s[0]] + (s[1..] + u) == s + u
  {
    assert s == [s[0]] + s[1..];
  }

  /**
   * Saved records in front of any text `t` are read back first, then reading
   * goes on in `t` with the slots that are left.
   */
  lemma {:induction false} ReadSerializedThen(ps: seq<Person>, t: string, max: int)
    requires AllStorable(ps) && |ps| <= max
    ensures ReadPeople(Serialize(ps) + t, max) == ps + ReadPeople(t, max - |ps|)
  {
    if ps == [] {
      assert Serialize(ps) + t == t;
    } else {
      assert AllStorable(ps[1..]);
      ReadSerializedThen(ps[1..], t, max - 1);
      assert (max - 1) - |ps[1..]| == max - |ps|;
      ReadFirstLineThen(ps, t, max);
    }
  }

  /** The inductive step of ReadSerializedThen: the first saved line, then the others. */
  lemma {:induction false} ReadFirstLineThen(ps: seq<Person>, t: string, max: int)
    requires ps != [] && Storable(ps[0]) && |ps| <= max
    requires ReadPeople(Serialize(ps[1..]) + t, max - 1) == ps[1..] + ReadPeople(t, max - |ps|)
    ensures ReadPeople(Serialize(ps) + t, max) == ps + ReadPeople(t, max - |ps|)
  {
    var rest := Serialize(ps[1..]) + t;
    SerializeThen(ps, t);
    ReadLineThen(ps[0], rest, max);
    ConsThen(ps, ReadPeople(t, max - |ps|));
  }

  /**
   * load_people stops at the first group that does not convert completely:
   * whatever follows it in the file is never read.
   */
  lemma {:induction false} StopsAtMalformed(ps: seq<Person>, t: string, max: int)
    requires AllStorable(ps) && |ps| <= max
    requires !Complete(Fscanf(t, RecordFormat).item)
    ensures ReadPeople(Serialize(ps) + t, max) == ps
  {
    ReadSerializedThen(ps, t, max);
    assert ReadPeople(t, max - |ps|) == [];
    assert ps + [] == ps;
  }

  lemma RightUnit<T>(a: seq<T>)
    ensures a + [] == a
  {
  }

  lemma Assoc<T>(a: seq<T>, b: seq<T>, c: seq<T>)
    ensures a + (b + c) == (a + b) + c
  {
  }

  lemma SplitAt<T>(s: seq<T>, k: nat)
    requires k <= |s|
    ensures s[..k] + s[k..] == s
  {
  }

  /** The saved text of two runs of records is the text of the first run, then that of the second. */
  lemma {:induction false} SerializeConcat(a: seq<Person>, b: seq<Person>)
    ensures Serialize(a + b) == Serialize(a) + Serialize(b)
  {
    if a != [] {
      assert (a + b)[0] == a[0] && (a + b)[1..] == a[1..] + b;
      SerializeConcat(a[1..], b);
      Assoc(Line(a[0]), Serialize(a[1..]), Serialize(b));
    } else {
      assert a + b == b;
    }
  }

  /** Saving a store of at most `max` storable records and loading the file gives the same records. */
  lemma {:induction false} SaveLoadRoundTrip(ps: seq<Person>, max: int)
    requires AllStorable(ps)
    requires |ps| <= max
    ensures LoadFile(Some(Serialize(ps)), max) == ps
  {
    assert Serialize(ps) + [] == Serialize(ps);
    assert ReadPeople(Serialize(ps) + [], max) == ps by {
      ReadSerializedThen(ps, [], max);
      EmptyFileMalformed();
      ReadPeopleMalformed([], max - |ps|);
    }
  }

  /** A file holding more than `max` records loads its first `max` of them. */
  lemma {:induction false} LoadCapped(ps: seq<Person>, max: int)
    requires AllStorable(ps)
    requires 0 <= max <= |ps|
    ensures LoadFile(Some(Serialize(ps)), max) == ps[..max]
  {
    var kept, dropped := ps[..max], ps[max..];
    assert Serialize(ps) == Serialize(kept) + Serialize(dropped) by {
      SplitAt(ps, max);
      SerializeConcat(kept, dropped);
    }
    assert ReadPeople(Serialize(kept) + Serialize(dropped), max) == kept by {
      assert AllStorable(kept);
      ReadSerializedThen(kept, Serialize(dropped), max);
      ReadPeopleExhausted(Serialize(dropped), 0);
    }
  }
}
