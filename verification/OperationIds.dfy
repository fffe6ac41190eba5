/** The identifiers of logged operations: "OPS-" and a number, one above the greatest the document holds. */
module OperationIds {
  import opened Text

  // ---------------------------------------------------------------- occurrences

  /** The text holds the piece from its i-th character on. */
  predicate HoldsAt(text: string, piece: string, i: nat) {
    i + |piece| <= |text| && text[i..i + |piece|] == piece
  }

  ghost predicate Holds(text: string, piece: string) {
    exists i: nat :: HoldsAt(text, piece, i)
  }

  predicate IsDigit(c: char) {
    '0' <= c <= '9'
  }

  function Value(c: char): (v: nat)
    requires IsDigit(c)
    ensures v < 10
  {
    (c as int) - ('0' as int)
  }

  /** An identifier begins at the i-th character: the mark, and three digits. */
  predicate IsIdAt(text: string, i: nat) {
    && i + 7 <= |text|
    && text[i] == 'O' && text[i + 1] == 'P' && text[i + 2] == 'S' && text[i + 3] == '-'
    && IsDigit(text[i + 4]) && IsDigit(text[i + 5]) && IsDigit(text[i + 6])
  }

  function NumberAt(text: string, i: nat): (n: nat)
    requires IsIdAt(text, i)
    ensures n <= 999
  {
    100 * Value(text[i + 4]) + 10 * Value(text[i + 5]) + Value(text[i + 6])
  }

  // ---------------------------------------------------------------- the greatest number

  function Larger(a: nat, b: nat): (m: nat) {
    if a < b then b else a
  }

  /** The greatest number of an identifier that begins before the n-th character. */
  function GreatestUpTo(text: string, n: nat): (m: nat)
    requires n <= |text|
    ensures m <= 999
  {
    if n == 0 then 0
    else
      var before := GreatestUpTo(text, n - 1);
      if IsIdAt(text, n - 1) then Larger(before, NumberAt(text, n - 1)) else before
  }

  function Greatest(text: string): (m: nat)
    ensures m <= 999
  {
    GreatestUpTo(text, |text|)
  }

  lemma {:induction false} GreatestFacts(text: string, n: nat)
    requires n <= |text|
    ensures forall i :: 0 <= i < n && IsIdAt(text, i) ==> NumberAt(text, i) <= GreatestUpTo(text, n)
    ensures GreatestUpTo(text, n) == 0 || exists i :: 0 <= i < n && IsIdAt(text, i) && NumberAt(text, i) == GreatestUpTo(text, n)
  {
    if n > 0 { GreatestFacts(text, n - 1); }
  }

  /** Inside an identifier no other begins. */
  lemma {:induction false} NoIdInside(text: string, i: nat, k: nat)
    requires IsIdAt(text, i) && 1 <= k <= 7
    ensures GreatestUpTo(text, i + k) == GreatestUpTo(text, i + 1)
  {
    if k > 1 { NoIdInside(text, i, k - 1); }
  }

  // ---------------------------------------------------------------- the next identifier

  /** Decimal notation of at least three digits. */
  function Padded(n: nat): (s: string) {
    if n < 10 then "00" + Decimal(n) else if n < 100 then "0" + Decimal(n) else Decimal(n)
  }

  function NextId(text: string): (id: string) {
    "OPS-" + Padded(Greatest(text) + 1)
  }

  /** The identifier for the next operation; the first one when there is no document. */
  method GenerateId(document: Option<string>) returns (id: string)
    ensures id == if document.None? then "OPS-001" else NextId(document.value)
  {
    var greatest := 0;
    if document.Some? {
      var text := document.value;
      var i := 0;
      while i < |text|
        invariant i <= |text|
        invariant greatest == GreatestUpTo(text, i)
      {
        if IsIdAt(text, i) {
          NoIdInside(text, i, 7);
          if NumberAt(text, i) > greatest { greatest := NumberAt(text, i); }
          i := i + 7;
        } else {
          i := i + 1;
        }
      }
    }
    id := "OPS-" + Padded(greatest + 1);
  }

  // ---------------------------------------------------------------- is it new?

  lemma TwoDigits(n: nat)
    requires 10 <= n < 100
    ensures Decimal(n) == [Digit(n / 10)] + [Digit(n % 10)]
  {
  }

  lemma Hundreds(n: nat)
    requires 100 <= n <= 999
    ensures Decimal(n) == [Digit(n / 100)] + [Digit(n / 10 % 10)] + [Digit(n % 10)]
  {
    TwoDigits(n / 10);
    assert n / 10 / 10 == n / 100;
  }

  lemma ThreeDigits(n: nat)
    requires n <= 999
    ensures Padded(n) == [Digit(n / 100)] + [Digit(n / 10 % 10)] + [Digit(n % 10)]
  {
    if n >= 100 { Hundreds(n); } else if n >= 10 { TwoDigits(n); }
  }

  lemma DigitValue(n: nat)
    requires n < 10
    ensures IsDigit(Digit(n)) && Value(Digit(n)) == n
  {
  }

  lemma IdOfDigits(id: string, a: nat, b: nat, c: nat)
    requires a < 10 && b < 10 && c < 10 && id == "OPS-" + ([Digit(a)] + [Digit(b)] + [Digit(c)])
    ensures |id| == 7 && IsIdAt(id, 0) && NumberAt(id, 0) == 100 * a + 10 * b + c
  {
    DigitValue(a);
    DigitValue(b);
    DigitValue(c);
    assert id[4] == Digit(a) && id[5] == Digit(b) && id[6] == Digit(c);
  }

  lemma DigitsOf(n: nat)
    requires n <= 999
    ensures n / 100 < 10 && n == 100 * (n / 100) + 10 * (n / 10 % 10) + n % 10
  {
  }

  lemma IdShape(id: string, n: nat)
    requires n <= 999 && id == "OPS-" + Padded(n)
    ensures |id| == 7 && IsIdAt(id, 0) && NumberAt(id, 0) == n
  {
    ThreeDigits(n);
    DigitsOf(n);
    IdOfDigits(id, n / 100, n / 10 % 10, n % 10);
  }

  lemma HeldIdCounts(text: string, id: string, i: nat)
    requires HoldsAt(text, id, i) && |id| == 7 && IsIdAt(id, 0)
    ensures IsIdAt(text, i) && NumberAt(text, i) == NumberAt(id, 0) <= Greatest(text)
  {
    forall k | 0 <= k < 7 ensures text[i + k] == id[k] { assert text[i..i + 7][k] == text[i + k]; }
    GreatestFacts(text, |text|);
  }

  /** Below the limit the next identifier is nowhere in the document. */
  lemma NextIdIsNew(text: string)
    requires Greatest(text) < 999
    ensures |NextId(text)| == 7 && !Holds(text, NextId(text))
  {
    var id := NextId(text);
    IdShape(id, Greatest(text) + 1);
    forall i: nat | HoldsAt(text, id, i) ensures false {
      HeldIdCounts(text, id, i);
    }
  }

  /** At the limit it has four digits. */
  lemma NextIdAtLimit(text: string)
    requires Greatest(text) == 999
    ensures NextId(text) == "OPS-1000"
  {
    Hundreds(100);
    assert Decimal(1000) == Decimal(100) + [Digit(0)];
  }

  /** The scan reads an identifier of four digits as one of three. */
  lemma FourDigitsReadAsThree()
    ensures IsIdAt("OPS-1000", 0) && NumberAt("OPS-1000", 0) == 100 && Greatest("OPS-1000") == 100
  {
    var id := "OPS-1000";
    assert GreatestUpTo(id, 0) == 0 && GreatestUpTo(id, 1) == 100;
    NoIdInside(id, 0, 7);
    assert !IsIdAt(id, 7);
  }

  /** A document that holds whatever another holds has at least its greatest number. */
  lemma GreatestGrows(text: string, longer: string)
    requires forall id: string :: |id| == 7 && IsIdAt(id, 0) && '\n' !in id && Holds(text, id) ==> Holds(longer, id)
    ensures Greatest(text) <= Greatest(longer)
  {
    GreatestFacts(text, |text|);
    if Greatest(text) > 0 {
      var i :| 0 <= i < |text| && IsIdAt(text, i) && NumberAt(text, i) == Greatest(text);
      var id := text[i..i + 7];
      assert HoldsAt(text, id, i) && IsIdAt(id, 0) && NumberAt(id, 0) == NumberAt(text, i);
      var j: nat :| HoldsAt(longer, id, j);
      HeldIdCounts(longer, id, j);
    }
  }
}
