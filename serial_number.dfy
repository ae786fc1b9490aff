/**
 * The serial-number rule Book and Reader both declare: present, exactly six
 * ASCII digits, unique in its own table, and (checked only once the format
 * holds) a value between 100000 and 999999.
 */
module SerialNumber {
  import opened Text
  import opened LibraryResult

  const NotSixDigits := "must be a six-digit number"
  const OutOfRange := "must be between 100000 and 999999"
  const Min := 100000
  const Max := 999999

  /** `s =~ /\A\d{6}\z/`. */
  predicate IsSixDigits(s: string) {
    |s| == 6 && AllDigits(s)
  }

  /** What the two model validations together accept, uniqueness aside. */
  predicate ValidSerialNumber(s: string) {
    IsSixDigits(s) && Min <= DecimalValue(s) <= Max
  }

  /**
   * The messages the model puts on `serial_number`, in validation order:
   * presence, format, uniqueness, then `serial_number_in_range`, which
   * only looks at a present, well-formed serial. `taken` says whether
   * another row of the same table already holds `s`.
   */
  function SerialNumberMessages(s: string, taken: bool): (m: seq<string>)
    ensures m == [] <==> ValidSerialNumber(s) && !taken
    ensures m == [] <==> IsSixDigits(s) && s[0] != '0' && !taken
    ensures CantBeBlank in m <==> Blank(s)
    ensures !IsSixDigits(s) <==> NotSixDigits in m
    ensures taken <==> AlreadyTaken in m
    ensures OutOfRange in m <==> IsSixDigits(s) && s[0] == '0'
  {
    var inRange := Blank(s) || !IsSixDigits(s) || Min <= DecimalValue(s) <= Max;
    assert IsSixDigits(s) ==> (Min <= DecimalValue(s) <= Max <==> s[0] != '0') by {
      if IsSixDigits(s) {
        InRangeIffNoLeadingZero(s);
      }
    }
    (if Blank(s) then [CantBeBlank] else [])
    + (if !IsSixDigits(s) then [NotSixDigits] else [])
    + (if taken then [AlreadyTaken] else [])
    + (if !inRange then [OutOfRange] else [])
  }

  /**
   * Among six-digit strings the range check rejects exactly those with a
   * leading zero ("099999"); nothing six digits long exceeds 999999.
   */
  lemma InRangeIffNoLeadingZero(s: string)
    requires IsSixDigits(s)
    ensures Min <= DecimalValue(s) <= Max <==> s[0] != '0'
  {
    DecimalValueBelow(s[1..]);
    assert Pow10(5) == 100000;
    assert DecimalValue(s) == DigitValue(s[0]) * 100000 + DecimalValue(s[1..]);
  }
}
