/**
  Quality checks on a price snapshot of the crypto-tracker example: every entry
  of the `prices` list needs a symbol, a positive price and a timestamp. The
  errors come out as one ordered list: entry by entry, and within an entry in
  the order symbol, price, timestamp.
*/
module PriceValidation {
  import opened Wrappers

  /** One entry of the `prices` list; a key absent from the JSON object is `None`. */
  datatype Entry = Entry(symbol: Option<string>, price: Option<real>, timestamp: Option<string>)

  /** The problems the validator reports. Each entry error carries the entry's index. */
  datatype ValidationError =
    | MissingPricesField
    | MissingSymbol(entry: nat)
    | MissingPrice(entry: nat)
    | InvalidPrice(entry: nat, price: real)
    | MissingTimestamp(entry: nat)

  /** The position of a check within one entry: symbol, then price, then timestamp. */
  function Rank(err: ValidationError): nat {
    match err
    case MissingPricesField => 0
    case MissingSymbol(_) => 0
    case MissingPrice(_) => 1
    case InvalidPrice(_, _) => 1
    case MissingTimestamp(_) => 2
  }

  /** `err` comes strictly before `other` in the report. */
  predicate Before(err: ValidationError, other: ValidationError)
    requires !err.MissingPricesField? && !other.MissingPricesField?
  {
    err.entry < other.entry || (err.entry == other.entry && Rank(err) < Rank(other))
  }

  /** An entry with every field present and a positive price. */
  predicate EntryValid(e: Entry) {
    e.symbol.Some? && e.price.Some? && e.price.value > 0.0 && e.timestamp.Some?
  }

  /** The errors the entry at index `idx` contributes, in the order of the
      checks: at most three, and none exactly when the entry is valid. */
  function EntryErrors(idx: nat, e: Entry): (errs: seq<ValidationError>)
    ensures |errs| <= 3
    ensures |errs| == 0 <==> EntryValid(e)
  {
    (if e.symbol.None? then [MissingSymbol(idx)] else [])
    + (if e.price.None? then [MissingPrice(idx)]
       else if e.price.value <= 0.0 then [InvalidPrice(idx, e.price.value)]
       else [])
    + (if e.timestamp.None? then [MissingTimestamp(idx)] else [])
  }

  /** An entry's errors are all about itself and come in check order. */
  lemma EntryErrorsShape(idx: nat, e: Entry)
    ensures forall k :: 0 <= k < |EntryErrors(idx, e)| ==>
      !EntryErrors(idx, e)[k].MissingPricesField? && EntryErrors(idx, e)[k].entry == idx
    ensures forall k, l :: 0 <= k < l < |EntryErrors(idx, e)| ==>
      Rank(EntryErrors(idx, e)[k]) < Rank(EntryErrors(idx, e)[l])
  {
  }

  /** The errors of the first `n` entries, as the loop has appended them. */
  function ErrorsOf(prices: seq<Entry>, n: nat): (errs: seq<ValidationError>)
    requires n <= |prices|
    ensures |errs| <= 3 * n
  {
    if n == 0 then []
    else
      ErrorsOf(prices, n - 1) + EntryErrors(n - 1, prices[n - 1])
  }

  /** `validate_price_data`: a missing `prices` field is reported alone and ends
      the check; otherwise every entry is checked in index order. The flag says
      whether no error was found. */
  method ValidatePriceData(data: Option<seq<Entry>>) returns (valid: bool, errors: seq<ValidationError>)
    ensures data.None? ==> errors == [MissingPricesField]
    ensures data.Some? ==> errors == ErrorsOf(data.value, |data.value|)
    ensures valid <==> errors == []
  {
    errors := [];
    if data.None? {
      errors := errors + [MissingPricesField];
      return false, errors;
    }
    var prices := data.value;
    var idx := 0;
    while idx < |prices|
      invariant idx <= |prices|
      invariant errors == ErrorsOf(prices, idx)
    {
      var price := prices[idx];
      if price.symbol.None? {
        errors := errors + [MissingSymbol(idx)];
      }
      if price.price.None? {
        errors := errors + [MissingPrice(idx)];
      } else if price.price.value <= 0.0 {
        errors := errors + [InvalidPrice(idx, price.price.value)];
      }
      if price.timestamp.None? {
        errors := errors + [MissingTimestamp(idx)];
      }
      idx := idx + 1;
    }
    valid := |errors| == 0;
  }

  /** Errors are grouped by entry in index order, and within an entry in the
      order symbol, price, timestamp; `MissingPricesField` never appears. */
  lemma {:induction false} ErrorsOrdered(prices: seq<Entry>, n: nat)
    requires n <= |prices|
    ensures forall k :: 0 <= k < |ErrorsOf(prices, n)| ==>
      !ErrorsOf(prices, n)[k].MissingPricesField? && ErrorsOf(prices, n)[k].entry < n
    ensures forall k, l :: 0 <= k < l < |ErrorsOf(prices, n)| ==>
      Before(ErrorsOf(prices, n)[k], ErrorsOf(prices, n)[l])
  {
    if n > 0 {
      ErrorsOrdered(prices, n - 1);
      EntryErrorsShape(n - 1, prices[n - 1]);
      var front := ErrorsOf(prices, n - 1);
      var last := EntryErrors(n - 1, prices[n - 1]);
      var errs := ErrorsOf(prices, n);
      assert errs == front + last;
      forall k, l | 0 <= k < l < |errs| ensures Before(errs[k], errs[l]) {
        if l < |front| {
          assert errs[k] == front[k] && errs[l] == front[l];
        } else if k < |front| {
          assert errs[k] == front[k] && errs[l] == last[l - |front|];
        } else {
          assert errs[k] == last[k - |front|] && errs[l] == last[l - |front|];
        }
      }
    }
  }

  /** Every reported error names a checked entry and is among that entry's own errors. */
  lemma {:induction false} ErrorSource(prices: seq<Entry>, n: nat, err: ValidationError)
    requires n <= |prices| && err in ErrorsOf(prices, n)
    ensures !err.MissingPricesField? && err.entry < n
    ensures err in EntryErrors(err.entry, prices[err.entry])
  {
    var front := ErrorsOf(prices, n - 1);
    var last := EntryErrors(n - 1, prices[n - 1]);
    assert ErrorsOf(prices, n) == front + last;
    EntryErrorsShape(n - 1, prices[n - 1]);
    if err in front {
      ErrorSource(prices, n - 1, err);
    } else {
      assert err in last;
    }
  }

  /** Every error of a checked entry is reported. */
  lemma {:induction false} ErrorsIncluded(prices: seq<Entry>, n: nat, i: nat)
    requires i < n <= |prices|
    ensures forall err :: err in EntryErrors(i, prices[i]) ==> err in ErrorsOf(prices, n)
  {
    assert ErrorsOf(prices, n) == ErrorsOf(prices, n - 1) + EntryErrors(n - 1, prices[n - 1]);
    if i < n - 1 {
      ErrorsIncluded(prices, n - 1, i);
    }
  }

  /** An error is reported exactly when some checked entry contributes it. */
  lemma ErrorsOfMembership(prices: seq<Entry>, n: nat, err: ValidationError)
    requires n <= |prices|
    ensures err in ErrorsOf(prices, n) <==> exists i :: 0 <= i < n && err in EntryErrors(i, prices[i])
  {
    if err in ErrorsOf(prices, n) {
      ErrorSource(prices, n, err);
    }
    if exists i :: 0 <= i < n && err in EntryErrors(i, prices[i]) {
      var i :| 0 <= i < n && err in EntryErrors(i, prices[i]);
      ErrorsIncluded(prices, n, i);
    }
  }

  /** An entry without a price is reported as `MissingPrice` and never as `InvalidPrice`. */
  lemma MissingPriceReported(prices: seq<Entry>, idx: nat)
    requires idx < |prices| && prices[idx].price.None?
    ensures MissingPrice(idx) in ErrorsOf(prices, |prices|)
    ensures forall v :: InvalidPrice(idx, v) !in ErrorsOf(prices, |prices|)
  {
    ErrorsIncluded(prices, |prices|, idx);
    assert MissingPrice(idx) in EntryErrors(idx, prices[idx]);
    forall v | InvalidPrice(idx, v) in ErrorsOf(prices, |prices|) ensures false {
      ErrorSource(prices, |prices|, InvalidPrice(idx, v));
    }
  }

  /** An error about the price of entry `idx`. */
  predicate PriceErrorFor(err: ValidationError, idx: nat) {
    (err.MissingPrice? || err.InvalidPrice?) && err.entry == idx
  }

  /** A present price that is not positive gives exactly one price error for its
      entry, `InvalidPrice` with that price, at the position returned. */
  lemma NonPositivePriceReportedOnce(prices: seq<Entry>, idx: nat) returns (k: nat)
    requires idx < |prices| && prices[idx].price.Some? && prices[idx].price.value <= 0.0
    ensures k < |ErrorsOf(prices, |prices|)|
    ensures ErrorsOf(prices, |prices|)[k] == InvalidPrice(idx, prices[idx].price.value)
    ensures forall l :: 0 <= l < |ErrorsOf(prices, |prices|)| && l != k ==> !PriceErrorFor(ErrorsOf(prices, |prices|)[l], idx)
  {
    var errs := ErrorsOf(prices, |prices|);
    var err := InvalidPrice(idx, prices[idx].price.value);
    ErrorsIncluded(prices, |prices|, idx);
    assert err in EntryErrors(idx, prices[idx]);
    ErrorsOrdered(prices, |prices|);
    k :| 0 <= k < |errs| && errs[k] == err;
    forall l | 0 <= l < |errs| && l != k ensures !PriceErrorFor(errs[l], idx) {
      if l < k {
        assert Before(errs[l], errs[k]);
      } else {
        assert Before(errs[k], errs[l]);
      }
    }
  }

  /** A positive price gives no price error for its entry. */
  lemma PositivePriceNotReported(prices: seq<Entry>, idx: nat)
    requires idx < |prices| && prices[idx].price.Some? && prices[idx].price.value > 0.0
    ensures forall err :: err in ErrorsOf(prices, |prices|) ==> !PriceErrorFor(err, idx)
  {
    forall err | err in ErrorsOf(prices, |prices|) ensures !PriceErrorFor(err, idx) {
      ErrorSource(prices, |prices|, err);
    }
  }

  /** The list validates, with no error at all, exactly when every entry is valid;
      in particular the empty list validates. */
  lemma {:induction false} NoErrorsIffAllValid(prices: seq<Entry>, n: nat)
    requires n <= |prices|
    ensures ErrorsOf(prices, n) == [] <==> forall i :: 0 <= i < n ==> EntryValid(prices[i])
  {
    if n > 0 {
      NoErrorsIffAllValid(prices, n - 1);
      EntryErrorsShape(n - 1, prices[n - 1]);
    }
  }

  /** The decimal digits of `n`, as an f-string writes an `int`. */
  function NatToString(n: nat): (s: string)
    ensures |s| > 0 && forall k :: 0 <= k < |s| ==> '0' <= s[k] <= '9'
  {
    if n < 10 then [Digit(n)] else NatToString(n / 10) + [Digit(n % 10)]
  }

  function Digit(d: nat): char
    requires d < 10
  {
    "0123456789"[d]
  }

  /** The value of a string of decimal digits. */
  function DigitsValue(s: string): nat
    requires forall k :: 0 <= k < |s| ==> '0' <= s[k] <= '9'
  {
    if s == [] then 0 else 10 * DigitsValue(s[..|s| - 1]) + (s[|s| - 1] as int - '0' as int)
  }

  /** Reading the digits back gives the number: distinct indexes give distinct texts. */
  lemma {:induction false} NatToStringRoundTrip(n: nat)
    ensures DigitsValue(NatToString(n)) == n
  {
    if n >= 10 {
      NatToStringRoundTrip(n / 10);
      var s := NatToString(n);
      assert s[..|s| - 1] == NatToString(n / 10);
    }
  }

  /** The text of an error; `showPrice` stands for Python's rendering of the
      offending price. */
  function Message(err: ValidationError, showPrice: real -> string): (msg: string)
    ensures err.MissingPricesField? ==> msg == "Missing 'prices' field"
    ensures !err.MissingPricesField? ==>
      var head := "Entry " + NatToString(err.entry) + ": ";
      |head| < |msg| && msg[..|head|] == head
  {
    match err
    case MissingPricesField => "Missing 'prices' field"
    case MissingSymbol(idx) => "Entry " + NatToString(idx) + ": Missing symbol"
    case MissingPrice(idx) => "Entry " + NatToString(idx) + ": Missing price"
    case InvalidPrice(idx, price) => "Entry " + NatToString(idx) + ": Invalid price " + showPrice(price)
    case MissingTimestamp(idx) => "Entry " + NatToString(idx) + ": Missing timestamp"
  }
}
