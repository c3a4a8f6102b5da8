/** Decimal digit characters. */
module DecimalDigits {
  predicate IsDigit(c: char) {
    '0' <= c <= '9'
  }

  function DigitOf(c: char): (d: nat)
    ensures d <= 9
  {
    if IsDigit(c) then c as int - '0' as int else 0
  }

  function DigitChar(d: nat): (c: char)
    requires d <= 9
    ensures IsDigit(c) && DigitOf(c) == d
  {
    '0' + d as char
  }

  /** Which character is which digit. */
  lemma DigitTable(d: nat)
    requires d <= 9
    ensures "0123456789"[d] == DigitChar(d) && DigitOf("0123456789"[d]) == d
    ensures forall c: char :: IsDigit(c) <==> c in "0123456789"
  {
  }
}
