/** A library that satisfies what the round trip asks of one, so that the condition is not empty. */
module JsonLibrary {
  import opened JsonText
  import opened JsonReading

  const FRACTION: Bytes := [0x31, 0x2E, 0x35]

  /** Reads whole numbers exactly and takes every other for 1.5. */
  function ReadDecimal(text: Bytes, pos: nat): Scan {
    if pos >= |text| then NoNumber
    else
      var lo := if text[pos] == MINUS then pos + 1 else pos;
      var hi := DigitsEnd(text, lo);
      if lo == hi then NoNumber
      else if hi < |text| && text[hi] == 0x2E then Scanned(1.5, 3)
      else
        var n: int := DigitsValue(text, lo, hi);
        Scanned((if lo > pos then -n else n) as real, hi - pos)
  }

  /** Prints every fraction as 1.5. */
  const COARSE: Library := Library(ReadDecimal, (x: real) => FRACTION, (x: real) => if Integral(x) then x else 1.5)

  lemma {:induction false} DecimalScans(n: int)
    requires n < -ExactIntegers || n > ExactIntegers
    ensures TextScans(COARSE, Decimal(n), Scanned(n as real, |Decimal(n)|))
  {
    var t, m := Decimal(n), if n < 0 then -n else n;
    DigitsStart(m);
    forall text: Bytes, pos: nat | pos < |text| && At(text, pos, t) && Stops(text, pos + |t|)
      ensures ScanNumber(ReadDecimal, text, pos) == Scanned(n as real, |t|)
    {
      AtByte(text, pos, t, 0);
      AtFits(text, pos, t);
      var lo := if n < 0 then pos + 1 else pos;
      if n < 0 {
        AtSplit(text, pos, [MINUS], Digits(m));
      }
      DigitsRead(text, lo, m);
      DigitsEndAt(text, lo, lo + |Digits(m)|);
    }
  }

  lemma {:induction false} FractionScans()
    ensures TextScans(COARSE, FRACTION, Scanned(1.5, 3))
  {
    forall text: Bytes, pos: nat | pos < |text| && At(text, pos, FRACTION) && Stops(text, pos + 3)
      ensures ScanNumber(ReadDecimal, text, pos) == Scanned(1.5, 3)
    {
      AtByte(text, pos, FRACTION, 0);
      AtByte(text, pos, FRACTION, 1);
      AtFits(text, pos, FRACTION);
      DigitsEndAt(text, pos, pos + 1);
    }
  }

  lemma {:induction false} CoarseIsSound()
    ensures Sound(COARSE)
  {
    forall x: real ensures Rounds(COARSE, x) {
      if Integral(x) && !SmallInteger(x) {
        DecimalScans(x.Floor);
      } else if !Integral(x) {
        FractionScans();
      }
    }
  }
}
