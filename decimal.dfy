/**
 * Decimal rendering of a count, as a template literal `${n}` prints a
 * non-negative integer, and the placeholder name of a new task.
 */
module Decimal {

  predicate IsDigit(c: char) { '0' <= c <= '9' }

  function DigitChar(d: nat): (c: char)
    requires d < 10
    ensures IsDigit(c) && c as int - '0' as int == d
  {
    ('0' as int + d) as char
  }

  function DigitValue(c: char): nat
    requires IsDigit(c)
  {
    c as int - '0' as int
  }

  /** The shortest decimal numeral of `n`: digits only, no leading zero. */
  function NatToString(n: nat): (s: string)
    ensures |s| >= 1
    ensures forall k :: 0 <= k < |s| ==> IsDigit(s[k])
    ensures s[0] == '0' <==> n == 0
    ensures n < 10 <==> |s| == 1
    decreases n
  {
    if n < 10 then [DigitChar(n)] else NatToString(n / 10) + [DigitChar(n % 10)]
  }

  /** The value of a string of digits. */
  function ParseDecimal(s: string): nat
    requires forall k :: 0 <= k < |s| ==> IsDigit(s[k])
  {
    if s == [] then 0 else ParseDecimal(s[..|s| - 1]) * 10 + DigitValue(s[|s| - 1])
  }

  /** Reading the numeral back gives the number. */
  lemma {:induction false} ParseNatToString(n: nat)
    ensures ParseDecimal(NatToString(n)) == n
    decreases n
  {
    var s := NatToString(n);
    if n >= 10 {
      ParseNatToString(n / 10);
      assert s[..|s| - 1] == NatToString(n / 10);
    }
  }

  /** Distinct numbers have distinct numerals. */
  lemma NatToStringInjective(m: nat, n: nat)
    requires NatToString(m) == NatToString(n)
    ensures m == n
  {
    ParseNatToString(m);
    ParseNatToString(n);
  }

  const TaskPrefix := "Edit Task "

  /** The placeholder name of the `n`-th child: `Edit Task ${n}`. */
  function TaskName(n: nat): (s: string)
    ensures |s| > |TaskPrefix| && s[..|TaskPrefix|] == TaskPrefix
    ensures s[|TaskPrefix|..] == NatToString(n)
  {
    TaskPrefix + NatToString(n)
  }

  /** Placeholders given for different child counts never coincide, and the number can be read back. */
  lemma TaskNameInjective(m: nat, n: nat)
    ensures TaskName(m) == TaskName(n) <==> m == n
    ensures ParseDecimal(TaskName(n)[|TaskPrefix|..]) == n
  {
    if TaskName(m) == TaskName(n) {
      assert NatToString(m) == TaskName(m)[|TaskPrefix|..];
      NatToStringInjective(m, n);
    }
    ParseNatToString(n);
  }

  /** The first placeholders. */
  lemma FirstTaskNames()
    ensures TaskName(1) == "Edit Task 1"
    ensures TaskName(12) == "Edit Task 12"
  {
    assert NatToString(12) == NatToString(1) + [DigitChar(2)];
  }
}
