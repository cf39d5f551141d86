/** `str::parse::<usize>` on a 64-bit target, and its inverse, decimal formatting. */
module UsizeParse {
  import opened Bytes
  import opened Wrappers

  const USIZE_MAX: nat := 0xFFFF_FFFF_FFFF_FFFF

  predicate AllDigits(t: seq<byte>) {
    forall i :: 0 <= i < |t| ==> IsDigit(t[i])
  }

  /** The value of a run of decimal digits, most significant first. */
  function DigitsValue(t: seq<byte>): nat
    requires AllDigits(t)
  {
    if t == [] then 0
    else DigitsValue(t[..|t| - 1]) * 10 + (t[|t| - 1] - ZERO) as nat
  }

  /** Rust's `usize::from_str`: an optional '+', then one or more ASCII digits whose value fits. */
  function ParseUsize(t: seq<byte>): (r: Option<nat>)
    ensures r.Some? ==> r.value <= USIZE_MAX
  {
    var digits := if |t| > 0 && t[0] == PLUS then t[1..] else t;
    if digits == [] then None else Accumulate(digits, 0)
  }

  /** One step of the digit loop: `acc * 10 + digit`, failing on a non-digit or on overflow. */
  function Step(acc: nat, d: byte): (r: Option<nat>)
    ensures r.Some? <==> IsDigit(d) && acc * 10 + (d - ZERO) as nat <= USIZE_MAX
    ensures r.Some? ==> r.value == acc * 10 + (d - ZERO) as nat
  {
    if !IsDigit(d) then None
    else
      var next := acc * 10 + (d - ZERO) as nat;
      if next > USIZE_MAX then None else Some(next)
  }

  /** The digit loop of `from_str_radix`, most significant digit first. */
  function Accumulate(t: seq<byte>, acc: nat): (r: Option<nat>)
    ensures r.Some? ==> acc <= r.value
    ensures r.Some? && acc <= USIZE_MAX ==> r.value <= USIZE_MAX
    decreases |t|
  {
    if t == [] then Some(acc)
    else
      match Step(acc, t[0])
      case None => None
      case Some(next) => Accumulate(t[1..], next)
  }

  lemma {:induction false} AccumulateSnoc(t: seq<byte>, d: byte, acc: nat)
    ensures Accumulate(t + [d], acc) == match Accumulate(t, acc) case None => None case Some(v) => Step(v, d)
    decreases |t|
  {
    if t == [] {
      assert [d][1..] == [];
    } else {
      assert (t + [d])[1..] == t[1..] + [d];
      match Step(acc, t[0])
      case None =>
      case Some(next) => AccumulateSnoc(t[1..], d, next);
    }
  }

  lemma {:induction false} AccumulateDigits(t: seq<byte>)
    requires AllDigits(t)
    ensures Accumulate(t, 0) == if DigitsValue(t) <= USIZE_MAX then Some(DigitsValue(t)) else None
    decreases |t|
  {
    if t != [] {
      var init := t[..|t| - 1];
      assert t == init + [t[|t| - 1]];
      AccumulateDigits(init);
      AccumulateSnoc(init, t[|t| - 1], 0);
    }
  }

  lemma {:induction false} AccumulateNonDigit(t: seq<byte>, acc: nat)
    requires !AllDigits(t)
    ensures Accumulate(t, acc) == None
    decreases |t|
  {
    if IsDigit(t[0]) {
      var i :| 0 <= i < |t| && !IsDigit(t[i]);
      assert !IsDigit(t[1..][i - 1]);
      match Step(acc, t[0])
      case None =>
      case Some(next) => AccumulateNonDigit(t[1..], next);
    }
  }

  /** The parser agrees with the positional value of the digits: it succeeds exactly on
      an optional '+' followed by one or more digits whose value fits in a `usize`. */
  lemma ParseUsizeValue(t: seq<byte>)
    ensures var digits := if |t| > 0 && t[0] == PLUS then t[1..] else t;
      ParseUsize(t) == if digits != [] && AllDigits(digits) && DigitsValue(digits) <= USIZE_MAX
                       then Some(DigitsValue(digits)) else None
  {
    var digits := if |t| > 0 && t[0] == PLUS then t[1..] else t;
    if digits != [] {
      if AllDigits(digits) {
        AccumulateDigits(digits);
      } else {
        AccumulateNonDigit(digits, 0);
      }
    }
  }

  /** The shortest decimal representation of `n`. */
  function Decimal(n: nat): (t: seq<byte>)
    ensures |t| > 0 && AllDigits(t)
    ensures |t| > 1 ==> t[0] != ZERO
  {
    if n < 10 then [ZERO + n as byte]
    else Decimal(n / 10) + [ZERO + (n % 10) as byte]
  }

  lemma {:induction false} DecimalValue(n: nat)
    ensures DigitsValue(Decimal(n)) == n
  {
    var t := Decimal(n);
    if n >= 10 {
      assert t[..|t| - 1] == Decimal(n / 10);
      DecimalValue(n / 10);
    }
  }

  /** Formatting then parsing gives the number back: the round trip the length and count prefixes rely on. */
  lemma ParseDecimal(n: nat)
    requires n <= USIZE_MAX
    ensures ParseUsize(Decimal(n)) == Some(n)
    ensures ParseUsize([PLUS] + Decimal(n)) == Some(n)
  {
    DecimalValue(n);
    ParseUsizeValue(Decimal(n));
    assert ([PLUS] + Decimal(n))[1..] == Decimal(n);
    ParseUsizeValue([PLUS] + Decimal(n));
  }

  /** A text that parses holds only '+' and digits, so it has no terminator in it and is ASCII. */
  lemma ParsedIsAscii(t: seq<byte>)
    requires ParseUsize(t).Some?
    ensures forall i :: 0 <= i < |t| ==> IsAscii(t[i]) && t[i] != CR
  {
    ParseUsizeValue(t);
    var digits := if t[0] == PLUS then t[1..] else t;
    forall i | 0 <= i < |t| ensures IsAscii(t[i]) && t[i] != CR {
      if t[0] == PLUS && i > 0 {
        assert t[i] == digits[i - 1];
      }
    }
  }

  /** Leading zeros are accepted, as Rust accepts them: a '0' in front of the digits, with or without
      a '+' before them, changes neither whether the text parses nor the value. */
  lemma LeadingZero(t: seq<byte>)
    requires |t| > 0 && t[0] != PLUS
    ensures ParseUsize([ZERO] + t) == ParseUsize(t)
    ensures ParseUsize([PLUS, ZERO] + t) == ParseUsize([PLUS] + t)
  {
    var z := [ZERO] + t;
    ParseUsizeValue(t);
    ParseUsizeValue(z);
    if AllDigits(t) {
      PrependZero(t);
    } else {
      var i :| 0 <= i < |t| && !IsDigit(t[i]);
      assert !IsDigit(z[i + 1]);
    }
    assert ([PLUS] + t)[1..] == t;
    assert ([PLUS, ZERO] + t)[1..] == z;
    ParseUsizeValue([PLUS] + t);
    ParseUsizeValue([PLUS, ZERO] + t);
  }

  lemma {:induction false} PrependZero(t: seq<byte>)
    requires AllDigits(t)
    ensures AllDigits([ZERO] + t) && DigitsValue([ZERO] + t) == DigitsValue(t)
    decreases |t|
  {
    var z := [ZERO] + t;
    assert AllDigits(z) by {
      forall i | 0 <= i < |z| ensures IsDigit(z[i]) {
        if i > 0 { assert z[i] == t[i - 1]; }
      }
    }
    if t != [] {
      assert z[..|z| - 1] == [ZERO] + t[..|t| - 1];
      PrependZero(t[..|t| - 1]);
    }
  }
}
