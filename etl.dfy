/**
 * The two computations of the ETL driver that are more than database and
 * thread plumbing: the calendar attributes stored with each transaction
 * date, and the master-data relation (every customer paired with every
 * product) that the join probes with.
 */
module Etl {
  import opened Records

  // ---------------------------------------------------------------------
  // Calendar attributes of a date

  /** `(month - 1) // 3 + 1`. Python's `//` floors; Dafny's `/` is
      Euclidean, and the two agree for the positive divisor 3, so this holds
      for every month number, not just 1..12. The quarter is the one whose
      three months contain the month. */
  function Quarter(month: int): (q: int)
    ensures 3 * (q - 1) < month <= 3 * q
  {
    (month - 1) / 3 + 1
  }

  /** Months 1..12 fall in quarters 1..4. */
  lemma QuarterRange(month: int)
    requires 1 <= month <= 12
    ensures 1 <= Quarter(month) <= 4
  {
  }

  /** A later month never has an earlier quarter. */
  lemma QuarterMonotone(m1: int, m2: int)
    requires m1 <= m2
    ensures Quarter(m1) <= Quarter(m2)
  {
  }

  datatype Season = Winter | Spring | Summer | Fall

  /** The text stored in the Season column. */
  function SeasonName(s: Season): string
  {
    match s
    case Winter => "Winter"
    case Spring => "Spring"
    case Summer => "Summer"
    case Fall => "Fall"
  }

  /** Different seasons are stored as different texts. */
  lemma SeasonNameInjective(s: Season, t: Season)
    requires SeasonName(s) == SeasonName(t)
    ensures s == t
  {
  }

  /** The season chain: Winter for December, January and February, Spring
      for March to May, Summer for June to August, and Fall for every other
      month number. */
  function SeasonOf(month: int): Season
  {
    if month in [12, 1, 2] then Winter
    else if month in [3, 4, 5] then Spring
    else if month in [6, 7, 8] then Summer
    else Fall
  }

  /** The seasons in calendar order, starting with the one that holds
      December. */
  function SeasonAt(i: int): Season
    requires 0 <= i < 4
  {
    [Winter, Spring, Summer, Fall][i]
  }

  /** For a real month the season is the block of three consecutive months,
      counted from December, that the month falls in: every month has one
      season and each season has three consecutive months. */
  lemma SeasonBlocks(month: int)
    ensures 1 <= month <= 12 ==> SeasonOf(month) == SeasonAt((month % 12) / 3)
  {
    if month == 12 {
      assert month % 12 == 0;
    } else if 1 <= month < 12 {
      assert month % 12 == month;
    }
  }

  /** The months of the season, in calendar order from December. */
  function MonthsOf(s: Season): seq<int>
  {
    match s
    case Winter => [12, 1, 2]
    case Spring => [3, 4, 5]
    case Summer => [6, 7, 8]
    case Fall => [9, 10, 11]
  }

  /** Each season covers exactly three of the twelve months. */
  lemma SeasonMonths(s: Season)
    ensures |set m | 1 <= m <= 12 && SeasonOf(m) == s| == 3
  {
    var months := set m | 1 <= m <= 12 && SeasonOf(m) == s;
    var ms := MonthsOf(s);
    forall m | m in months ensures m in ms {
      assert SeasonOf(m) == s;
    }
    assert ms[0] != ms[1] && ms[0] != ms[2] && ms[1] != ms[2];
    assert months == {ms[0], ms[1], ms[2]};
  }

  /** `date.weekday()` numbers the days from Monday. */
  datatype Weekday = Monday | Tuesday | Wednesday | Thursday | Friday | Saturday | Sunday

  function WeekdayOf(dayOfWeek: int): Weekday
    requires 0 <= dayOfWeek < 7
  {
    [Monday, Tuesday, Wednesday, Thursday, Friday, Saturday, Sunday][dayOfWeek]
  }

  /** `1 if day_of_week >= 5 else 0`. */
  function IsWeekend(dayOfWeek: int): (flag: int)
    ensures flag == 0 || flag == 1
  {
    if dayOfWeek >= 5 then 1 else 0
  }

  /** The flag is set on exactly Saturdays and Sundays. */
  lemma WeekendDays(dayOfWeek: int)
    requires 0 <= dayOfWeek < 7
    ensures IsWeekend(dayOfWeek) == 1 <==> WeekdayOf(dayOfWeek) in {Saturday, Sunday}
  {
  }

  /** The derived columns of one row of the time dimension. */
  datatype TimeAttributes = TimeAttributes(quarter: int, season: string, isWeekend: int)

  function TimeAttributesOf(month: int, dayOfWeek: int): (a: TimeAttributes)
    ensures 3 * (a.quarter - 1) < month <= 3 * a.quarter
    ensures a.season in {"Winter", "Spring", "Summer", "Fall"}
    ensures 1 <= month <= 12 ==> a.season == SeasonName(SeasonAt((month % 12) / 3))
    ensures a.isWeekend == 1 <==> dayOfWeek >= 5
    ensures a.isWeekend == 0 <==> dayOfWeek < 5
  {
    SeasonBlocks(month);
    TimeAttributes(Quarter(month), SeasonName(SeasonOf(month)), IsWeekend(dayOfWeek))
  }

  // ---------------------------------------------------------------------
  // The master-data relation

  /** One customer merged with each product in turn; product fields win. */
  function Row(customer: Record, products: seq<Record>): seq<Record>
  {
    if products == [] then []
    else Row(customer, products[..|products| - 1]) + [Merge(customer, products[|products| - 1])]
  }

  /** Every customer with every product, customer-major. */
  function Product(customers: seq<Record>, products: seq<Record>): seq<Record>
  {
    if customers == [] then []
    else Product(customers[..|customers| - 1], products) + Row(customers[|customers| - 1], products)
  }

  /** The relation build: for each customer, for each product, append the
      merge of the two. */
  method BuildRelation(customers: seq<Record>, products: seq<Record>) returns (relation: seq<Record>)
    ensures relation == Product(customers, products)
  {
    relation := [];
    var i := 0;
    while i < |customers|
      invariant i <= |customers|
      invariant relation == Product(customers[..i], products)
    {
      var customer := customers[i];
      var j := 0;
      while j < |products|
        invariant j <= |products|
        invariant relation == Product(customers[..i], products) + Row(customer, products[..j])
      {
        assert products[..j + 1][..j] == products[..j];
        relation := relation + [Merge(customer, products[j])];
        j := j + 1;
      }
      assert products[..j] == products;
      assert customers[..i + 1][..i] == customers[..i];
      i := i + 1;
    }
    assert customers[..i] == customers;
  }

  /** A customer's row has one entry per product, entry j merging the
      customer with product j. */
  lemma {:induction false} RowAt(customer: Record, products: seq<Record>)
    ensures |Row(customer, products)| == |products|
    ensures forall j :: 0 <= j < |products| ==> Row(customer, products)[j] == Merge(customer, products[j])
  {
    if products != [] {
      var n := |products| - 1;
      RowAt(customer, products[..n]);
      forall j | 0 <= j < |products|
        ensures Row(customer, products)[j] == Merge(customer, products[j])
      {
        if j < n {
          assert products[..n][j] == products[j];
        }
      }
    }
  }

  /** One more row of a table with p columns adds p entries. */
  lemma MulSucc(n: nat, p: nat)
    ensures (n + 1) * p == n * p + p
  {
  }

  lemma {:induction false} MulNonNegative(n: nat, p: nat)
    ensures 0 <= n * p
  {
    if n > 0 {
      MulNonNegative(n - 1, p);
      MulSucc(n - 1, p);
    }
  }

  /** In a customer-major table with p columns, entry j of row i comes
      before row n when i < n. */
  lemma {:induction false} RowArithmetic(i: nat, n: nat, p: nat, j: nat)
    requires i < n && j < p
    ensures 0 <= i * p + j < n * p
    decreases n
  {
    MulNonNegative(i, p);
    MulSucc(n - 1, p);
    if i < n - 1 {
      RowArithmetic(i, n - 1, p, j);
    }
  }

  /** The relation has |customers| * |products| entries. */
  lemma {:induction false} ProductLength(customers: seq<Record>, products: seq<Record>)
    ensures |Product(customers, products)| == |customers| * |products|
  {
    if customers != [] {
      var n := |customers| - 1;
      ProductLength(customers[..n], products);
      RowAt(customers[n], products);
      MulSucc(n, |products|);
    }
  }

  /** Entry i * |products| + j of the relation merges customer i with
      product j. */
  lemma {:induction false} ProductAt(customers: seq<Record>, products: seq<Record>, i: int, j: int)
    requires 0 <= i < |customers| && 0 <= j < |products|
    ensures 0 <= i * |products| + j < |Product(customers, products)|
    ensures Product(customers, products)[i * |products| + j] == Merge(customers[i], products[j])
  {
    var n := |customers| - 1;
    var p := |products|;
    ProductLength(customers[..n], products);
    ProductLength(customers, products);
    RowAt(customers[n], products);
    RowArithmetic(i, n + 1, p, j);
    if i < n {
      RowArithmetic(i, n, p, j);
      ProductAt(customers[..n], products, i, j);
      assert customers[..n][i] == customers[i];
    }
  }

  /** In every relation entry the product's fields win, and the customer's
      other fields are kept. */
  lemma RelationEntryFields(customers: seq<Record>, products: seq<Record>, i: int, j: int)
    requires 0 <= i < |customers| && 0 <= j < |products|
    ensures 0 <= i * |products| + j < |Product(customers, products)|
    ensures var r := Product(customers, products)[i * |products| + j];
            && (forall f :: f in products[j] ==> f in r && r[f] == products[j][f])
            && (forall f :: f in customers[i] && f !in products[j] ==> f in r && r[f] == customers[i][f])
  {
    ProductAt(customers, products, i, j);
  }
}
