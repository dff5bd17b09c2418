/** The quantity tokens of an order and their integer values. */
module Quantity {
  import opened Text

  /** `num_text_to_int` of main.py, entry for entry. */
  const NumberWords: map<string, nat> := map[
    "uno" := 1, "una" := 1, "dos" := 2, "tres" := 3, "cuatro" := 4, "cinco" := 5,
    "seis" := 6, "siete" := 7, "ocho" := 8, "nueve" := 9, "diez" := 10,
    "media docena" := 6, "docena" := 12, "cien" := 100, "mil" := 1000,
    "un" := 1, "uuno" := 1, "5." := 5, "2 " := 2, "cinco!" := 5, "och0" := 8,
    "diez " := 10, "media" := 1, "decena" := 10, "doscenas" := 24
  ]

  /** Every word of the table stands for at least one dish. */
  lemma NumberWordsPositive()
    ensures forall w :: w in NumberWords ==> NumberWords[w] >= 1
  {
  }

  /** The quantity of a fragment: 1 when the token is absent, its decimal
      value when it is all digits, otherwise its table value or 1. */
  function ResolveQuantity(token: string): (q: nat)
    ensures token == "" ==> q == 1
    ensures IsDigits(token) ==> q == DecimalValue(token)
    ensures !IsDigits(token) && token in NumberWords ==> q == NumberWords[token]
    ensures !IsDigits(token) && token !in NumberWords ==> q == 1
    ensures !IsDigits(token) ==> q >= 1
  {
    NumberWordsPositive();
    if token == "" then 1
    else if IsDigits(token) then DecimalValue(token)
    else if token in NumberWords then NumberWords[token]
    else 1
  }

  /** A number written in digits is taken at its value: the token `str(n)`
      resolves to `n`. */
  lemma DigitTokenIsItsValue(n: nat)
    ensures ResolveQuantity(DecimalString(n)) == n
  {
    DecimalRoundTrip(n);
  }

  /** Spelled-out quantities take their table values: "dos" is 2, "una" is 1. */
  lemma SpelledQuantities()
    ensures ResolveQuantity("dos") == 2 && ResolveQuantity("una") == 1
  {
    assert !IsDigit("dos"[0]) && !IsDigit("una"[0]);
  }

  /** The digit token "0" resolves to 0, so a zero quantity can enter an order. */
  lemma ZeroTokenIsZero()
    ensures ResolveQuantity("0") == 0
  {
    assert IsDigits("0");
  }
}
