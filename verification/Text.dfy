// The string operations the modelled code takes from its standard library.
module Text {
  import opened Wrappers

  // The characters with the Unicode White_Space property.
  predicate IsWhitespace(c: char) {
    var u := c as int;
    9 <= u <= 13 || u == 32 || u == 0x85 || u == 0xA0 || u == 0x1680 || 0x2000 <= u <= 0x200A ||
    u == 0x2028 || u == 0x2029 || u == 0x202F || u == 0x205F || u == 0x3000
  }

  // The Unicode control characters (general category Cc).
  predicate IsControl(c: char) {
    var u := c as int;
    u < 32 || 127 <= u <= 159
  }

  function TrimStart(s: string): string {
    if s != "" && IsWhitespace(s[0]) then TrimStart(s[1..]) else s
  }

  function TrimEnd(s: string): string {
    if s != "" && IsWhitespace(s[|s| - 1]) then TrimEnd(s[..|s| - 1]) else s
  }

  function Trim(s: string): string {
    TrimEnd(TrimStart(s))
  }

  predicate AllDigits(s: string) {
    forall i :: 0 <= i < |s| ==> '0' <= s[i] <= '9'
  }

  function DigitsValue(s: string): nat
    requires AllDigits(s)
  {
    if s == "" then 0
    else 10 * DigitsValue(s[..|s| - 1]) + (s[|s| - 1] as int - '0' as int)
  }

  // Decimal parsing of an unsigned integer below `limit`; one leading plus sign is allowed.
  function ParseUnsigned(s: string, limit: nat): Option<nat> {
    var digits := if s != "" && s[0] == '+' then s[1..] else s;
    if digits != "" && AllDigits(digits) && DigitsValue(digits) < limit then Some(DigitsValue(digits))
    else None
  }

  function Decimal(n: nat): (s: string)
    ensures s != "" && AllDigits(s)
  {
    var last := [('0' as int + n % 10) as char];
    if n < 10 then last else Decimal(n / 10) + last
  }

  // A number's decimal text is read back as that number.
  lemma {:induction false} DecimalReadsBack(n: nat, limit: nat)
    requires n < limit
    ensures DigitsValue(Decimal(n)) == n && ParseUnsigned(Decimal(n), limit) == Some(n)
  {
    var s := Decimal(n);
    if n >= 10 {
      DecimalReadsBack(n / 10, limit);
      assert s[..|s| - 1] == Decimal(n / 10);
    } else {
      assert s[..|s| - 1] == "";
    }
  }

  lemma DecimalTrimmed(n: nat)
    ensures Trim(Decimal(n)) == Decimal(n)
  {
    var s := Decimal(n);
    assert '0' <= s[0] <= '9' && '0' <= s[|s| - 1] <= '9';
    hide Decimal, AllDigits;
  }
}
