/** Monthly partitions of the audit table: their names and the months they cover
    (internal/adapters/audit/partitions.go).  Maintenance has the pass over them. */
module Partitions {
  import opened Strings

  // ----- months -----

  datatype YearMonth = YearMonth(year: int, month: int)

  /** The first instant of a month, in UTC. */
  type Month = m: YearMonth | 1 <= m.month <= 12 witness YearMonth(1970, 1)

  /** An instant: the month it lies in and how far into the month it is. */
  datatype Instant = Instant(month: Month, within: nat)

  function Index(m: Month): int {
    m.year * 12 + m.month - 1
  }

  lemma IndexIsInjective(a: Month, b: Month)
    ensures Index(a) == Index(b) <==> a == b
  {
  }

  predicate Before(a: Month, b: Month) {
    a.year < b.year || (a.year == b.year && a.month < b.month)
  }

  lemma BeforeIsIndexOrder(a: Month, b: Month)
    ensures Before(a, b) <==> Index(a) < Index(b)
  {
  }

  /** AddDate(0, months, 0) on the first of a month: time.Date carries the months
      into years, borrowing first when the sum is negative. */
  function AddMonths(m: Month, months: int): Month {
    var lo := m.month - 1 + months;
    var borrow := if lo < 0 then (-lo - 1) / 12 + 1 else 0;
    var lo' := lo + borrow * 12;
    var carry := if lo' >= 12 then lo' / 12 else 0;
    YearMonth(m.year - borrow + carry, lo' - carry * 12 + 1)
  }

  lemma AddMonthsAdds(m: Month, months: int)
    ensures Index(AddMonths(m, months)) == Index(m) + months
  {
  }

  // ----- names -----

  const PREFIX := "audit_log_y"

  function Digit(d: nat): char
    requires d < 10
  {
    '0' + d as char
  }

  predicate IsDigit(c: char) {
    '0' <= c <= '9'
  }

  function Value(c: char): nat
    requires IsDigit(c)
  {
    c as int - '0' as int
  }

  function Decimal(n: nat): string {
    if n < 10 then [Digit(n)] else Decimal(n / 10) + [Digit(n % 10)]
  }

  function Padded(digits: string, width: nat): string {
    seq(if |digits| >= width then 0 else width - |digits|, _ => '0') + digits
  }

  /** The verbs %04d and %02d: the sign counts towards the width. */
  function Printed(n: int, width: nat): string {
    if n < 0 then "-" + Padded(Decimal(-n), if width == 0 then 0 else width - 1)
    else Padded(Decimal(n), width)
  }

  function PartitionName(m: Month): string {
    PREFIX + Printed(m.year, 4) + "m" + Printed(m.month, 2)
  }

  function Number(digits: string): nat
    requires forall i | 0 <= i < |digits| :: IsDigit(digits[i])
  {
    if digits == [] then 0
    else 10 * Number(digits[..|digits| - 1]) + Value(digits[|digits| - 1])
  }

  /** The names the anchored expression accepts: the prefix, four digits, an m and
      two digits. */
  predicate Matches(name: string) {
    && |name| == 18
    && name[..11] == PREFIX
    && (forall i | 11 <= i < 15 :: IsDigit(name[i]))
    && name[15] == 'm'
    && IsDigit(name[16]) && IsDigit(name[17])
  }

  function ParsePartitionMonth(name: string): Option<Month> {
    if !Matches(name) then None
    else
      assert name[11..15] == [name[11], name[12], name[13], name[14]];
      assert name[16..18] == [name[16], name[17]];
      var year, month := Number(name[11..15]), Number(name[16..18]);
      if month < 1 || month > 12 then None else Some(YearMonth(year, month))
  }

  predicate FourDigitYear(m: Month) {
    0 <= m.year <= 9999
  }

  lemma {:induction false} DecimalStep(n: nat, d: nat)
    requires n > 0 && d < 10
    ensures Decimal(10 * n + d) == Decimal(n) + [Digit(d)]
  {
    assert (10 * n + d) / 10 == n && (10 * n + d) % 10 == d;
  }

  lemma {:induction false} FourDigits(a: nat, b: nat, c: nat, d: nat)
    requires a < 10 && b < 10 && c < 10 && d < 10
    ensures Printed(1000 * a + 100 * b + 10 * c + d, 4) == [Digit(a), Digit(b), Digit(c), Digit(d)]
  {
    var n := 1000 * a + 100 * b + 10 * c + d;
    var digits := Decimal(n);
    if a > 0 {
      assert Decimal(a) == [Digit(a)];
      DecimalStep(a, b);
      DecimalStep(10 * a + b, c);
      DecimalStep(100 * a + 10 * b + c, d);
      assert digits == [Digit(a), Digit(b), Digit(c), Digit(d)];
    } else if b > 0 {
      assert Decimal(b) == [Digit(b)];
      DecimalStep(b, c);
      DecimalStep(10 * b + c, d);
      assert digits == [Digit(b), Digit(c), Digit(d)];
    } else if c > 0 {
      assert Decimal(c) == [Digit(c)];
      DecimalStep(c, d);
      assert digits == [Digit(c), Digit(d)];
    } else {
      assert digits == [Digit(d)];
    }
    assert Printed(n, 4) == Padded(digits, 4);
  }

  lemma TwoDigits(c: nat, d: nat)
    requires c < 10 && d < 10
    ensures Printed(10 * c + d, 2) == [Digit(c), Digit(d)]
  {
    if c > 0 {
      assert Decimal(c) == [Digit(c)];
      DecimalStep(c, d);
    }
  }

  lemma {:induction false} NumberOf4(a: char, b: char, c: char, d: char)
    requires IsDigit(a) && IsDigit(b) && IsDigit(c) && IsDigit(d)
    ensures Number([a, b, c, d]) ==
            1000 * Value(a) + 100 * Value(b) + 10 * Value(c) + Value(d)
  {
    assert [a, b, c, d][..3] == [a, b, c] && [a, b, c][..2] == [a, b] && [a, b][..1] == [a] && [a][..0] == [];
    assert Number([a]) == Value(a);
    assert Number([a, b]) == 10 * Number([a]) + Value(b);
    assert Number([a, b, c]) == 10 * Number([a, b]) + Value(c);
  }

  lemma {:induction false} NumberOf2(a: char, b: char)
    requires IsDigit(a) && IsDigit(b)
    ensures Number([a, b]) == 10 * Value(a) + Value(b)
  {
    assert [a, b][..1] == [a] && [a][..0] == [];
    assert Number([a]) == Value(a);
  }

  lemma Spelled(name: string, y: string, mm: string)
    requires |y| == 4 && |mm| == 2 && name == PREFIX + y + "m" + mm
    requires (forall i | 0 <= i < 4 :: IsDigit(y[i])) && IsDigit(mm[0]) && IsDigit(mm[1])
    ensures Matches(name) && name[11..15] == y && name[16..18] == mm
  {
    assert |PREFIX| == 11 && name[..11] == PREFIX;
    assert forall i | 11 <= i < 15 :: name[i] == y[i - 11];
    assert name[11..15] == y && name[16..18] == mm;
    assert name[15] == 'm' && name[16] == mm[0] && name[17] == mm[1];
  }

  /** The name made of six given digits: what it prints and what it reads. */
  lemma SixDigits(a: nat, b: nat, c: nat, d: nat, e: nat, f: nat, m: Month, name: string)
    requires a < 10 && b < 10 && c < 10 && d < 10 && e < 10 && f < 10
    requires m.year == 1000 * a + 100 * b + 10 * c + d && m.month == 10 * e + f
    requires name == PREFIX + [Digit(a), Digit(b), Digit(c), Digit(d)] + "m" + [Digit(e), Digit(f)]
    ensures PartitionName(m) == name && ParsePartitionMonth(name) == Some(m)
  {
    FourDigits(a, b, c, d);
    TwoDigits(e, f);
    Spelled(name, [Digit(a), Digit(b), Digit(c), Digit(d)], [Digit(e), Digit(f)]);
    NumberOf4(Digit(a), Digit(b), Digit(c), Digit(d));
    NumberOf2(Digit(e), Digit(f));
  }

  lemma DivMod(n: nat, base: nat) returns (hi: nat, lo: nat)
    requires base == 10 || base == 100
    requires n < base * 100
    ensures n == base * hi + lo && lo < base && hi < 100
    ensures n < base * base ==> hi < base
  {
    hi, lo := n / base, n % base;
  }

  /** A name read back gives the month it was made from. */
  lemma NameThenParse(m: Month)
    requires FourDigitYear(m)
    ensures ParsePartitionMonth(PartitionName(m)) == Some(m)
  {
    var century, years := DivMod(m.year, 100);
    var a, b := DivMod(century, 10);
    var c, d := DivMod(years, 10);
    var e, f := DivMod(m.month, 10);
    SixDigits(a, b, c, d, e, f, m, PREFIX + [Digit(a), Digit(b), Digit(c), Digit(d)] + "m" + [Digit(e), Digit(f)]);
  }

  /** And a name that is accepted is the one its month is given. */
  lemma ParseThenName(name: string)
    requires ParsePartitionMonth(name).Some?
    ensures FourDigitYear(ParsePartitionMonth(name).value)
    ensures PartitionName(ParsePartitionMonth(name).value) == name
  {
    var m := ParsePartitionMonth(name).value;
    var a, b, c, d := Value(name[11]), Value(name[12]), Value(name[13]), Value(name[14]);
    var e, f := Value(name[16]), Value(name[17]);
    assert name[11..15] == [Digit(a), Digit(b), Digit(c), Digit(d)] && name[16..18] == [Digit(e), Digit(f)];
    NumberOf4(Digit(a), Digit(b), Digit(c), Digit(d));
    NumberOf2(Digit(e), Digit(f));
    assert name == PREFIX + name[11..15] + "m" + name[16..18];
    SixDigits(a, b, c, d, e, f, m, name);
  }

  /** Spelled out: the names that are accepted, and the month each of them is read as. */
  lemma ParsesIff(name: string)
    ensures ParsePartitionMonth(name).Some? <==>
            && |name| == 18 && name[..11] == "audit_log_y" && name[15] == 'm'
            && (forall i | i in {11, 12, 13, 14, 16, 17} :: '0' <= name[i] <= '9')
            && 1 <= 10 * (name[16] as int - 48) + name[17] as int - 48 <= 12
    ensures ParsePartitionMonth(name).Some? ==>
            var m := ParsePartitionMonth(name).value;
            && m.month == 10 * (name[16] as int - 48) + name[17] as int - 48
            && m.year == 1000 * (name[11] as int - 48) + 100 * (name[12] as int - 48) + 10 * (name[13] as int - 48)
                         + name[14] as int - 48
  {
    if Matches(name) {
      assert name[11..15] == [name[11], name[12], name[13], name[14]] && name[16..18] == [name[16], name[17]];
      NumberOf4(name[11], name[12], name[13], name[14]);
      NumberOf2(name[16], name[17]);
    }
  }

  lemma {:induction false} LongDecimal(n: nat)
    requires n >= 10000
    ensures |Decimal(n)| >= 5
  {
    assert |Decimal(n)| == |Decimal(n / 10)| + 1 && |Decimal(n / 10)| == |Decimal(n / 10 / 10)| + 1;
    assert |Decimal(n / 10 / 10)| == |Decimal(n / 10 / 10 / 10)| + 1;
    assert |Decimal(n / 10 / 10 / 10)| == |Decimal(n / 10 / 10 / 10 / 10)| + 1;
    AtLeastOneDigit(n / 10 / 10 / 10 / 10);
  }

  lemma {:induction false} AtLeastOneDigit(n: nat)
    ensures |Decimal(n)| >= 1
  {
  }

  /** A name reads back exactly for the years it has room for. */
  lemma ReadsBackIff(m: Month)
    ensures ParsePartitionMonth(PartitionName(m)) == Some(m) <==> FourDigitYear(m)
    ensures ParsePartitionMonth(PartitionName(m)).Some? ==> FourDigitYear(m)
  {
    var name := PartitionName(m);
    if FourDigitYear(m) {
      NameThenParse(m);
    } else if m.year < 0 {
      assert name[11] == '-';
    } else {
      LongDecimal(m.year);
      AtLeastTwo(m.month);
      assert |name| == 11 + |Printed(m.year, 4)| + 1 + |Printed(m.month, 2)|;
    }
  }

  lemma AtLeastTwo(n: nat)
    ensures |Printed(n, 2)| >= 2
  {
  }
}
