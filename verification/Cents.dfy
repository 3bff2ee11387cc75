/** Yuan to cents through two roundings: reading a decimal into a double, and multiplying it by 100. */
module Cents {
  import opened Options

  // A rounding has relative error at most 2^-53 (section 4.3.1 of IEEE 754-2019, normal range).
  const UNIT: real := 1.0 / 9007199254740992.0

  function Abs(x: real): real {
    if x < 0.0 then -x else x
  }

  predicate Rounds(exact: real, double: real) {
    Abs(double - exact) <= UNIT * Abs(exact)
  }

  // std::llround: to the nearest integer, halves away from zero.
  function LlRound(x: real): int {
    if x >= 0.0 then (x + 0.5).Floor else -(0.5 - x).Floor
  }

  // The amount read as `double` yuan, times 100.0 rounded to `product`.
  predicate Computes(cents: int, double: real, product: real) {
    Rounds(cents as real / 100.0, double) && Rounds(double * 100.0, product)
  }

  lemma LlRoundNear(n: int, x: real)
    requires Abs(x - n as real) < 0.5
    ensures LlRound(x) == n
  {
  }

  // The two roundings together move the cents by less than (2u + u^2) of their amount.
  lemma TwoRoundings(cents: int, double: real, product: real)
    requires Computes(cents, double, product)
    ensures Abs(product - cents as real) <= (2.0 * UNIT + UNIT * UNIT) * Abs(cents as real)
  {
    var c := cents as real;
    var yuan := c / 100.0;
    assert Abs(double * 100.0 - c) <= UNIT * Abs(c);
    assert Abs(double * 100.0) <= (1.0 + UNIT) * Abs(c);
    assert UNIT * Abs(double * 100.0) <= UNIT * ((1.0 + UNIT) * Abs(c));
    assert Abs(product - double * 100.0) <= UNIT * ((1.0 + UNIT) * Abs(c));
  }

  const LIMIT := 2251799813685248 // 2^51

  lemma CentsAreExact(cents: int, double: real, product: real)
    requires -LIMIT < cents < LIMIT && Computes(cents, double, product)
    ensures LlRound(product) == cents
  {
    TwoRoundings(cents, double, product);
    var bound := 2.0 * UNIT + UNIT * UNIT;
    var most := (LIMIT - 1) as real;
    assert Abs(cents as real) <= most;
    assert bound * Abs(cents as real) <= bound * most;
    assert bound * most < 0.5;
    LlRoundNear(cents, product);
  }

  // From 2^51 cents on, two roundings that both err upwards by what they may give another number.
  lemma BeyondTheLimit(cents: int) returns (double: real, product: real)
    requires cents >= LIMIT || cents <= -LIMIT
    ensures Computes(cents, double, product) && LlRound(product) != cents
  {
    var c := cents as real;
    double := c / 100.0 * (1.0 + UNIT);
    product := double * 100.0 * (1.0 + UNIT);
    assert double - c / 100.0 == UNIT * (c / 100.0);
    assert product - double * 100.0 == UNIT * (double * 100.0);
    assert product == c + (2.0 * UNIT + UNIT * UNIT) * c;
    if cents > 0 {
      assert (2.0 * UNIT) * c >= 0.5;
    } else {
      assert (2.0 * UNIT) * c <= -0.5;
    }
  }

  // The conversion is exact, however the two roundings fall, for exactly the amounts below 2^51 cents.
  lemma ExactBelowTheLimit(cents: int)
    ensures (forall double, product :: Computes(cents, double, product) ==> LlRound(product) == cents)
      <==> -LIMIT < cents < LIMIT
  {
    if -LIMIT < cents < LIMIT {
      forall double, product | Computes(cents, double, product)
        ensures LlRound(product) == cents
      {
        CentsAreExact(cents, double, product);
      }
    } else {
      var double, product := BeyondTheLimit(cents);
    }
  }

  // ------------------------------------------------------------------ the notification's amount

  predicate Digits(s: string) {
    s != "" && forall i :: 0 <= i < |s| ==> '0' <= s[i] <= '9'
  }

  function Number(s: string): nat
    requires forall i :: 0 <= i < |s| ==> '0' <= s[i] <= '9'
  {
    if s == "" then 0 else 10 * Number(s[..|s| - 1]) + (s[|s| - 1] - '0') as int
  }

  // The cents an amount in yuan with at most two decimals denotes.
  predicate Denotes(text: string, cents: int) {
    || (Digits(text) && cents == 100 * Number(text))
    || (|text| > 2 && text[|text| - 2] == '.' && Digits(text[..|text| - 2]) && Digits(text[|text| - 1..])
        && cents == 100 * Number(text[..|text| - 2]) + 10 * Number(text[|text| - 1..]))
    || (|text| > 3 && text[|text| - 3] == '.' && Digits(text[..|text| - 3]) && Digits(text[|text| - 2..])
        && cents == 100 * Number(text[..|text| - 3]) + Number(text[|text| - 2..]))
  }

  // An empty amount leaves the event's as it was, one std::stod throws on makes it zero.
  function AmountTotal(before: int, text: string, stod: string -> Option<real>, times100: real -> real): int {
    if text == "" then before
    else match stod(text)
      case None => 0
      case Some(yuan) => LlRound(times100(yuan))
  }

  // std::stod rounds whatever an amount denotes.
  ghost predicate ReadsByRounding(stod: string -> Option<real>) {
    forall text, cents :: Denotes(text, cents) ==> stod(text).Some? && Rounds(cents as real / 100.0, stod(text).value)
  }

  // The product with 100.0 rounds.
  ghost predicate MultipliesByRounding(times100: real -> real) {
    forall double :: Rounds(double * 100.0, times100(double))
  }

  // An amount denotes one number of cents.
  lemma DenotesOne(text: string, a: int, b: int)
    requires Denotes(text, a) && Denotes(text, b)
    ensures a == b >= 0
  {
  }

  // Only an empty amount keeps the event's, and only an unreadable one makes it zero whatever it was.
  lemma UnreadAmounts(text: string, stod: string -> Option<real>, times100: real -> real)
    ensures (forall before :: AmountTotal(before, text, stod, times100) == before) <==> text == ""
    ensures text != "" && stod(text) == None ==> forall before :: AmountTotal(before, text, stod, times100) == 0
  {
    if text != "" {
      assert AmountTotal(0, text, stod, times100) == AmountTotal(1, text, stod, times100);
    }
  }

  // Whatever a notification states in yuan with at most two decimals, below 2^51 cents, is the amount the
  // event carries, if reading texts and multiplying by 100.0 each round once.
  lemma AmountsAreExact(before: int, text: string, cents: int, stod: string -> Option<real>, times100: real -> real)
    requires Denotes(text, cents) && cents < LIMIT
    requires ReadsByRounding(stod) && MultipliesByRounding(times100)
    ensures AmountTotal(before, text, stod, times100) == cents
  {
    DenotesOne(text, cents, cents);
    CentsAreExact(cents, stod(text).value, times100(stod(text).value));
  }
}
