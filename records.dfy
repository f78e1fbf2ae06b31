/**
 * Records as the ETL pipeline passes them around: Python dictionaries from
 * field names to values. Only the parts the join looks at are modelled: the
 * text that `str()` gives for a field value, the join key `Customer_ID`, and
 * the dictionary merge `{**base, **over}`.
 */
module Records {

  /** A field value. `Other` stands for any value that is neither a string
      nor an integer (a float, a date, None); it carries the text `str()`
      gives for it. */
  datatype Value = Str(s: string) | Int(i: int) | Other(shown: string)

  type Record = map<string, Value>

  /** The field both sides of the join are keyed on. */
  const CustomerId: string := "Customer_ID"

  function DigitChar(d: nat): char
    requires d < 10
  {
    (48 + d) as char
  }

  /** Decimal digits of a natural number, most significant first. */
  function Digits(n: nat): string
    decreases n
  {
    if n < 10 then [DigitChar(n)] else Digits(n / 10) + [DigitChar(n % 10)]
  }

  /** Python's `str(v)`. */
  function Text(v: Value): string
  {
    match v
    case Str(s) => s
    case Int(i) => if i < 0 then "-" + Digits(-i) else Digits(i)
    case Other(shown) => shown
  }

  /** The join key of a record: `str(r.get('Customer_ID', ''))`. */
  function KeyOf(r: Record): (k: string)
    ensures CustomerId !in r ==> k == ""
    ensures CustomerId in r && r[CustomerId].Str? ==> k == r[CustomerId].s
    ensures CustomerId in r && r[CustomerId].Int? && r[CustomerId].i >= 0 ==> k == Digits(r[CustomerId].i)
  {
    if CustomerId in r then Text(r[CustomerId]) else ""
  }

  /** `{**base, **over}`: every field of either record, and where both have a
      field the value from `over` wins. */
  function Merge(base: Record, over: Record): (m: Record)
    ensures m.Keys == base.Keys + over.Keys
    ensures forall f :: f in over ==> m[f] == over[f]
    ensures forall f :: f in base && f !in over ==> m[f] == base[f]
  {
    base + over
  }

  /** Every decimal numeral has at least one digit. */
  lemma DigitsNonEmpty(n: nat)
    ensures |Digits(n)| >= 1
  {
  }

  /** Different natural numbers have different numerals. */
  lemma {:induction false} DigitsInjective(a: nat, b: nat)
    requires Digits(a) == Digits(b)
    ensures a == b
    decreases a
  {
    if a < 10 && b < 10 {
      assert Digits(a)[0] == Digits(b)[0];
    } else if a < 10 {
      DigitsNonEmpty(b / 10);
    } else if b < 10 {
      DigitsNonEmpty(a / 10);
    } else {
      var da, db := Digits(a / 10), Digits(b / 10);
      assert Digits(a) == da + [DigitChar(a % 10)];
      assert Digits(b) == db + [DigitChar(b % 10)];
      assert Digits(a)[..|Digits(a)| - 1] == da;
      assert Digits(b)[..|Digits(b)| - 1] == db;
      assert DigitChar(a % 10) == DigitChar(b % 10);
      DigitsInjective(a / 10, b / 10);
    }
  }

  /** A stream tuple read from text, whose `Customer_ID` is a string, and a
      relation row whose `Customer_ID` is a non-negative integer have the
      same join key exactly when the string is the integer's numeral; two
      rows with different integer ids never share a key. */
  lemma IntegerKeys(t: Record, row: Record, row': Record, n: nat, n': nat)
    requires CustomerId in t && t[CustomerId].Str?
    requires CustomerId in row && row[CustomerId] == Int(n)
    requires CustomerId in row' && row'[CustomerId] == Int(n')
    ensures KeyOf(t) == KeyOf(row) <==> t[CustomerId].s == Digits(n)
    ensures KeyOf(row) == KeyOf(row') <==> n == n'
  {
    if KeyOf(row) == KeyOf(row') {
      DigitsInjective(n, n');
    }
  }

  /** A merged record keeps the join key it was joined on. */
  lemma MergeKeepsKey(base: Record, over: Record)
    requires KeyOf(base) == KeyOf(over)
    ensures KeyOf(Merge(base, over)) == KeyOf(over)
  {
  }
}
