/** The decimal, zero-padded names of logical and physical blocks. */
module BlockNames {

  function Digit(d: nat): char
    requires d < 10
  {
    '0' + d as char
  }

  // %d
  function Decimal(n: int): string
    decreases if n < 0 then 1 - n else n
  {
    if n < 0 then "-" + Decimal(-n) else if n < 10 then [Digit(n)] else Decimal(n / 10) + [Digit(n % 10)]
  }

  // The zeros crear_nombre_bloque_logico puts in front.
  function Padding(n: int): string {
    if n < 10 then "00000"
    else if n < 100 then "0000"
    else if n < 1000 then "000"
    else if n < 10000 then "00"
    else if n < 100000 then "0"
    else ""
  }

  // crear_nombre_bloque_logico
  function LogicalName(n: int): string {
    Padding(n) + Decimal(n) + ".dat"
  }

  // block%04d
  function PhysicalName(n: nat): string {
    "block" + (if n < 10 then "000" else if n < 100 then "00" else if n < 1000 then "0" else "") + Decimal(n)
  }

  // The number a string of digits denotes.
  function Value(s: string): int {
    if s == "" then 0 else 10 * Value(s[..|s| - 1]) + (s[|s| - 1] as int - '0' as int)
  }

  lemma {:induction false} DecimalValue(n: nat, zeros: string)
    requires forall i :: 0 <= i < |zeros| ==> zeros[i] == '0'
    ensures Value(zeros + Decimal(n)) == n
    decreases n
  {
    var s := zeros + Decimal(n);
    if n < 10 {
      assert s[..|s| - 1] == zeros;
      ZerosValue(zeros);
    } else {
      assert s[..|s| - 1] == zeros + Decimal(n / 10);
      DecimalValue(n / 10, zeros);
    }
  }

  lemma {:induction false} ZerosValue(zeros: string)
    requires forall i :: 0 <= i < |zeros| ==> zeros[i] == '0'
    ensures Value(zeros) == 0
  {
    if zeros != "" {
      ZerosValue(zeros[..|zeros| - 1]);
    }
  }

  /** Different block numbers have different logical names. */
  lemma LogicalNamesDiffer(a: nat, b: nat)
    requires LogicalName(a) == LogicalName(b)
    ensures a == b
  {
    assert LogicalName(a)[..|LogicalName(a)| - 4] == Padding(a) + Decimal(a);
    assert LogicalName(b)[..|LogicalName(b)| - 4] == Padding(b) + Decimal(b);
    DecimalValue(a, Padding(a));
    DecimalValue(b, Padding(b));
  }

  lemma PhysicalNamesDiffer(a: nat, b: nat)
    requires PhysicalName(a) == PhysicalName(b)
    ensures a == b
  {
    var za := if a < 10 then "000" else if a < 100 then "00" else if a < 1000 then "0" else "";
    var zb := if b < 10 then "000" else if b < 100 then "00" else if b < 1000 then "0" else "";
    PhysicalDigits(a, za);
    PhysicalDigits(b, zb);
  }

  lemma PhysicalDigits(n: nat, zeros: string)
    requires zeros == if n < 10 then "000" else if n < 100 then "00" else if n < 1000 then "0" else ""
    ensures Value(PhysicalName(n)[5..]) == n
  {
    assert PhysicalName(n)[5..] == zeros + Decimal(n);
    DecimalValue(n, zeros);
  }

  function PowerOfTen(k: nat): nat {
    if k == 0 then 1 else 10 * PowerOfTen(k - 1)
  }

  lemma {:induction false} DecimalWidth(n: nat, k: nat)
    requires k > 0 && n < PowerOfTen(k) && (k == 1 || PowerOfTen(k - 1) <= n)
    ensures |Decimal(n)| == k
  {
    if k > 1 {
      assert PowerOfTen(k - 1) >= 10 by { PowerGrows(k - 1); }
      DecimalWidth(n / 10, k - 1);
    }
  }

  lemma {:induction false} PowerGrows(k: nat)
    requires k > 0
    ensures PowerOfTen(k) >= 10
  {
    if k > 1 { PowerGrows(k - 1); }
  }

  lemma {:induction false} DecimalWider(n: nat, k: nat)
    requires PowerOfTen(k) <= n
    ensures |Decimal(n)| > k
  {
    if k > 0 {
      assert PowerOfTen(k) >= 10 by { PowerGrows(k); }
      DecimalWider(n / 10, k - 1);
    }
  }

  // The powers of ten that the names use.
  lemma Powers()
    ensures PowerOfTen(0) == 1 && PowerOfTen(1) == 10 && PowerOfTen(2) == 100 && PowerOfTen(3) == 1000
    ensures PowerOfTen(4) == 10000 && PowerOfTen(5) == 100000 && PowerOfTen(6) == 1000000
  {
    assert PowerOfTen(2) == 10 * PowerOfTen(1);
    assert PowerOfTen(4) == 10 * PowerOfTen(3) == 100 * PowerOfTen(2);
  }

  lemma DigitCount(n: nat)
    ensures n < 1000000 ==>
              |Decimal(n)| == if n < 10 then 1 else if n < 100 then 2 else if n < 1000 then 3 else if n < 10000 then 4 else if n < 100000 then 5 else 6
    ensures n >= 10000 ==> |Decimal(n)| > 4
    ensures n >= 1000000 ==> |Decimal(n)| > 6
  {
    hide Decimal, PowerOfTen;
    Powers();
    if n < 10 { DecimalWidth(n, 1); }
    else if n < 100 { DecimalWidth(n, 2); }
    else if n < 1000 { DecimalWidth(n, 3); }
    else if n < 10000 { DecimalWidth(n, 4); }
    else if n < 100000 { DecimalWidth(n, 5); }
    else if n < 1000000 { DecimalWidth(n, 6); }
    else { DecimalWider(n, 6); }
  }

  /** A logical block's name is its number and ".dat". A number below a million is written with six digits,
      a larger one with all of its own. */
  lemma LogicalWidth(n: nat)
    ensures var s := LogicalName(n);
            && |s| >= 10 && (n < 1000000 <==> |s| == 10)
            && Value(s[..|s| - 4]) == n && s[|s| - 4..] == ".dat"
  {
    hide Decimal, Value;
    DigitCount(n);
    var s := LogicalName(n);
    assert s[..|s| - 4] == Padding(n) + Decimal(n) && s[|s| - 4..] == ".dat";
    DecimalValue(n, Padding(n));
  }

  // The zeros in front of a physical block's number.
  lemma PhysicalZeros(n: nat) returns (zeros: string)
    ensures zeros == if n < 10 then "000" else if n < 100 then "00" else if n < 1000 then "0" else ""
    ensures PhysicalName(n) == "block" + zeros + Decimal(n)
  {
    hide Decimal;
    zeros := if n < 10 then "000" else if n < 100 then "00" else if n < 1000 then "0" else "";
  }

  /** A physical block's name is "block" and its number, with four digits below ten thousand. */
  lemma PhysicalWidth(n: nat)
    ensures var s := PhysicalName(n);
            |s| >= 9 && (n < 10000 <==> |s| == 9) && s[..5] == "block" && Value(s[5..]) == n
  {
    hide Decimal, Value, PhysicalName;
    DigitCount(n);
    var zeros := PhysicalZeros(n);
    PhysicalDigits(n, zeros);
    assert ("block" + zeros + Decimal(n))[..5] == "block";
  }
}
