/** Runtime values handed to a table, the declared column types, the text a
    value is stored as (Python's `str`) and the decoder `convert_string` that
    turns stored text back into a value when rows are read. */
module Values {

  /** The declared column types a schema may name: 'int', 'str' and 'bool'. */
  datatype TypeTag = IntType | StrType | BoolType

  /** A value passed to insert, query or a sort key: a Python int, str or bool. */
  datatype Value = IntV(i: int) | StrV(s: string) | BoolV(b: bool)

  /** The exact runtime type of a value, `type(value)`: a bool is not an int. */
  function TypeOf(v: Value): TypeTag {
    match v
    case IntV(_) => IntType
    case StrV(_) => StrType
    case BoolV(_) => BoolType
  }

  /** The number a bool or an int stands for in Python arithmetic and `==`. */
  function Numeric(v: Value): int
    requires !v.StrV?
  {
    if v.IntV? then v.i else if v.b then 1 else 0
  }

  /** Python's `==` on these values: strings equal only strings, and bools
      compare as the integers 0 and 1, so `True == 1` holds. */
  function PyEq(a: Value, b: Value): (r: bool)
    ensures TypeOf(a) == TypeOf(b) ==> (r <==> a == b)
    ensures a.StrV? != b.StrV? ==> !r
    ensures a == BoolV(true) && b == IntV(1) ==> r
    ensures !a.StrV? && !b.StrV? ==> (r <==> Numeric(a) == Numeric(b))
  {
    if a.StrV? || b.StrV? then a.StrV? && b.StrV? && a.s == b.s
    else Numeric(a) == Numeric(b)
  }

  predicate IsDigit(c: char) {
    '0' <= c <= '9'
  }

  /** `str.isdigit()` restricted to ASCII: non-empty and every character a digit. */
  predicate IsDigits(s: string) {
    |s| > 0 && forall k :: 0 <= k < |s| ==> IsDigit(s[k])
  }

  function DigitChar(d: nat): (c: char)
    requires d < 10
    ensures IsDigit(c)
  {
    ('0' as int + d) as char
  }

  function DigitValue(c: char): (d: nat)
    requires IsDigit(c)
    ensures d < 10 && DigitChar(d) == c
  {
    (c as int) - ('0' as int)
  }

  /** Decimal text of a natural number, without leading zeros. */
  function NatToString(n: nat): (s: string)
    ensures |s| > 0
  {
    if n < 10 then [DigitChar(n)] else NatToString(n / 10) + [DigitChar(n % 10)]
  }

  /** `int(s)` for a string of ASCII digits (leading zeros allowed). */
  function ParseDigits(s: string): nat
    requires forall k :: 0 <= k < |s| ==> IsDigit(s[k])
  {
    if |s| == 0 then 0 else 10 * ParseDigits(s[..|s| - 1]) + DigitValue(s[|s| - 1])
  }

  /** `str(value)`: the text a cell is stored as. Negative integers get a
      leading '-', bools become "True" or "False", strings are kept. */
  function Encode(v: Value): (s: string)
    ensures v.IntV? ==> (IsDigits(s) <==> v.i >= 0)
    ensures v.IntV? && v.i < 0 ==> |s| > 0 && s[0] == '-'
    ensures v.BoolV? ==> !IsDigits(s)
  {
    match v
    case IntV(i) =>
      if i < 0 then
        var t := "-" + NatToString(-i);
        assert !IsDigit(t[0]);
        t
      else
        NatToStringParses(i);
        NatToString(i)
    case StrV(s) => s
    case BoolV(b) =>
      var t := if b then "True" else "False";
      assert !IsDigit(t[0]);
      t
  }

  /** `convert_string`: digit strings become ints, "True"/"False" become bools,
      every other text stays a string. The float branch of the source (a digit
      string containing '.') cannot be taken, and the assertion proves it. */
  function Decode(s: string): (r: Value)
    ensures r.IntV? <==> IsDigits(s)
    ensures r.IntV? ==> r.i >= 0 && IsDigits(s) && r.i == ParseDigits(s)
    ensures r.BoolV? <==> s == "True" || s == "False"
    ensures r.BoolV? ==> (r.b <==> s == "True")
    ensures r.StrV? ==> r.s == s
  {
    if IsDigits(s) then
      if '.' in s then assert false; StrV(s)
      else IntV(ParseDigits(s))
    else if s == "True" then BoolV(true)
    else if s == "False" then BoolV(false)
    else StrV(s)
  }

  /** A value whose stored text decodes back to itself. */
  predicate SurvivesStorage(v: Value) {
    match v
    case IntV(i) => i >= 0
    case StrV(s) => !IsDigits(s) && s != "True" && s != "False"
    case BoolV(_) => true
  }

  lemma {:induction false} NatToStringParses(n: nat)
    ensures IsDigits(NatToString(n)) && ParseDigits(NatToString(n)) == n
  {
    if n >= 10 {
      NatToStringParses(n / 10);
      var s := NatToString(n);
      assert s[..|s| - 1] == NatToString(n / 10);
    }
  }

  /** Storing a value and reading it back gives the value again exactly when
      it is a non-negative int, a bool, or a string that looks like neither. */
  lemma RoundTrip(v: Value)
    ensures Decode(Encode(v)) == v <==> SurvivesStorage(v)
  {
    match v
    case IntV(i) =>
      if i >= 0 {
        NatToStringParses(i);
      } else {
        assert Encode(v)[0] == '-';
        assert !IsDigits(Encode(v));
      }
    case StrV(s) =>
    case BoolV(b) =>
      assert !IsDigit(Encode(v)[0]);
  }

  /** A negative int is stored as "-n", which is not a digit string, so it
      reads back as that text. */
  lemma NegativeIntReadsAsText(n: int)
    requires n < 0
    ensures Decode(Encode(IntV(n))) == StrV(Encode(IntV(n)))
  {
    assert Encode(IntV(n))[0] == '-';
  }

  /** A string cell holding digits reads back as an int: decoding ignores the
      column's declared type. */
  lemma DigitTextReadsAsInt(s: string)
    requires IsDigits(s)
    ensures Decode(Encode(StrV(s))) == IntV(ParseDigits(s))
  {
  }

  /** No leading zero and at least one digit: the number is positive. */
  lemma {:induction false} ParsePositive(s: string)
    requires IsDigits(s) && s[0] != '0'
    ensures ParseDigits(s) > 0
  {
    if |s| > 1 {
      ParsePositive(s[..|s| - 1]);
    }
  }

  /** Decimal text without a leading zero is the text of the number it parses to. */
  lemma {:induction false} CanonicalDigits(s: string)
    requires IsDigits(s) && (|s| == 1 || s[0] != '0')
    ensures NatToString(ParseDigits(s)) == s
  {
    var p := s[..|s| - 1];
    var d := DigitValue(s[|s| - 1]);
    if |s| == 1 {
      assert ParseDigits(s) == 10 * ParseDigits(p) + d;
      assert p == [];
    } else {
      ParsePositive(p);
      CanonicalDigits(p);
      var n := ParseDigits(s);
      assert n == 10 * ParseDigits(p) + d;
      assert n / 10 == ParseDigits(p) && n % 10 == d;
      assert s == p + [s[|s| - 1]];
    }
  }

  /** Reading stored text and storing the result again gives the same text,
      except for digit strings with a leading zero. */
  lemma TextRoundTrip(s: string)
    ensures Encode(Decode(s)) == s <==> !(IsDigits(s) && |s| > 1 && s[0] == '0')
  {
    if IsDigits(s) {
      if |s| == 1 || s[0] != '0' {
        CanonicalDigits(s);
      } else {
        NatToStringParses(ParseDigits(s));
        var t := NatToString(ParseDigits(s));
        if t == s {
          // "0" is the only decimal text that starts with '0'.
          NoLeadingZero(ParseDigits(s));
        }
      }
    }
  }

  /** Decimal text of a number starts with '0' only when it is "0". */
  lemma {:induction false} NoLeadingZero(n: nat)
    ensures NatToString(n)[0] == '0' ==> n == 0
    ensures NatToString(n)[0] == '0' ==> |NatToString(n)| == 1
  {
    if n >= 10 {
      NoLeadingZero(n / 10);
    }
  }
}
