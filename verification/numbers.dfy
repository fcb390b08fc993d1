/** The digits of a range bound (`parse_number` in
    `pomsky-lib/src/parse/parsers.rs`) and what they denote. */
module Numbers {
  import opened Wrappers
  import opened Text
  import opened Errors

  predicate IsDigitOf(b: byte, radix: nat) {
    DigitValue(b).Some? && DigitValue(b).value < radix
  }

  /** The outcome `parse_number` is specified by: every byte must be a digit
      below the radix, and the digits are their values in order. */
  function NumberDigits(src: seq<byte>, radix: nat): Result<seq<nat>, NumberError>
    decreases |src|
  {
    if src == [] then Ok([])
    else if !IsDigitOf(src[0], radix) then Err(NumberError.InvalidDigit)
    else match NumberDigits(src[1..], radix)
      case Ok(ds) => Ok([DigitValue(src[0]).value] + ds)
      case Err(e) => Err(e)
  }

  /** `NumberDigits` succeeds exactly when every byte is a digit below the
      radix; then it has one digit per byte, each the value of its byte;
      otherwise the error is `InvalidDigit`. */
  lemma {:induction false} NumberDigitsMeaning(src: seq<byte>, radix: nat)
    ensures NumberDigits(src, radix).Ok? <==> forall i :: 0 <= i < |src| ==> IsDigitOf(src[i], radix)
    ensures NumberDigits(src, radix).Err? ==> NumberDigits(src, radix).error == NumberError.InvalidDigit
    ensures NumberDigits(src, radix).Ok? ==>
      var ds := NumberDigits(src, radix).value;
      && |ds| == |src|
      && forall i :: 0 <= i < |src| ==> ds[i] == DigitValue(src[i]).value && ds[i] < radix
    decreases |src|
  {
    if src != [] {
      NumberDigitsMeaning(src[1..], radix);
      if !IsDigitOf(src[0], radix) {
      } else if NumberDigits(src[1..], radix).Ok? {
        assert forall i :: 1 <= i < |src| ==> src[i] == src[1..][i - 1];
      } else {
        var k :| 0 <= k < |src[1..]| && !IsDigitOf(src[1..][k], radix);
        assert src[k + 1] == src[1..][k];
      }
    }
  }

  /** `parse_number`: map each byte to its digit value, rejecting any byte
      that is no digit of `radix`. */
  method ParseNumber(src: seq<byte>, radix: nat) returns (r: Result<seq<nat>, NumberError>)
    ensures r == NumberDigits(src, radix)
  {
    NumberDigitsMeaning(src, radix);
    var digits: seq<nat> := [];
    var i := 0;
    while i < |src|
      invariant 0 <= i <= |src|
      invariant |digits| == i
      invariant forall k :: 0 <= k < i ==> IsDigitOf(src[k], radix) && digits[k] == DigitValue(src[k]).value
    {
      var c := src[i];
      var n: nat;
      if 0x30 <= c <= 0x39 {        // b'0'..=b'9'
        n := (c - 0x30) as nat;
      } else if 0x61 <= c <= 0x7A { // b'a'..=b'z'
        n := (c - 0x61) as nat + 10;
      } else if 0x41 <= c <= 0x5A { // b'A'..=b'Z'
        n := (c - 0x41) as nat + 10;
      } else {
        return Err(NumberError.InvalidDigit);
      }
      if n >= radix {
        return Err(NumberError.InvalidDigit);
      }
      digits := digits + [n];
      i := i + 1;
    }
    assert digits == NumberDigits(src, radix).value;
    r := Ok(digits);
  }

  /** The lower-case text of a digit sequence. */
  function DigitsText(ds: seq<nat>): (s: string)
    requires forall i :: 0 <= i < |ds| ==> ds[i] < 36
    ensures |s| == |ds| && AllAscii(s)
  {
    seq(|ds|, i requires 0 <= i < |ds| => DigitChar(ds[i]))
  }

  /** Writing digits out and parsing them back gives the same digits. */
  lemma ParseDigitsText(ds: seq<nat>, radix: nat)
    requires radix <= 36
    requires forall i :: 0 <= i < |ds| ==> ds[i] < radix
    ensures NumberDigits(Utf8(DigitsText(ds)), radix) == Ok(ds)
  {
    var s := DigitsText(ds);
    Utf8Ascii(s);
    var bs := Utf8(s);
    forall i | 0 <= i < |bs|
      ensures IsDigitOf(bs[i], radix) && DigitValue(bs[i]).value == ds[i]
    {
      assert bs[i] as int == s[i] as int == Utf8Char(DigitChar(ds[i]))[0] as int;
    }
    NumberDigitsMeaning(bs, radix);
    assert NumberDigits(bs, radix).value == ds;
  }

  /** The number the digits denote, most significant first. */
  function DigitsValue(ds: seq<nat>, radix: nat): nat {
    if ds == [] then 0 else ds[0] * Pow(radix, |ds| - 1) + DigitsValue(ds[1..], radix)
  }

  /** Rust's ordering of `Vec<u8>`: lexicographic, a proper prefix first. */
  predicate LexLess(a: seq<nat>, b: seq<nat>) {
    if a == [] then b != []
    else if b == [] then false
    else a[0] < b[0] || (a[0] == b[0] && LexLess(a[1..], b[1..]))
  }

  predicate DigitsBelow(ds: seq<nat>, radix: nat) {
    forall i :: 0 <= i < |ds| ==> ds[i] < radix
  }

  /** A digit string without superfluous leading zero. */
  predicate Canonical(ds: seq<nat>) {
    |ds| >= 1 && (|ds| == 1 || ds[0] != 0)
  }

  lemma {:induction false} PowMonotone(radix: nat, i: nat, j: nat)
    requires radix >= 1 && i <= j
    ensures Pow(radix, i) <= Pow(radix, j)
    decreases j
  {
    if i < j {
      PowMonotone(radix, i, j - 1);
      MulMonotone(Pow(radix, j - 1), 1, radix);
    }
  }

  /** One more digit in front: `d * p + v` stays below `radix * p`. */
  lemma StepBelow(d: nat, p: nat, v: nat, radix: nat)
    requires d < radix && v < p
    ensures d * p + v < radix * p
  {
    MulMonotone(p, d + 1, radix);
    assert (d + 1) * p == d * p + p;
  }

  /** A smaller leading digit wins whatever follows it. */
  lemma LeadingDigitDecides(d1: nat, v1: nat, d2: nat, v2: nat, p: nat)
    requires d1 < d2 && v1 < p
    ensures d1 * p + v1 < d2 * p + v2
  {
    MulMonotone(p, d1 + 1, d2);
    assert (d1 + 1) * p == d1 * p + p;
  }

  /** `k` digits denote less than `radix^k`. */
  lemma {:induction false} DigitsValueBelow(ds: seq<nat>, radix: nat)
    requires radix >= 1 && DigitsBelow(ds, radix)
    ensures DigitsValue(ds, radix) < Pow(radix, |ds|)
    decreases |ds|
  {
    if ds != [] {
      var p := Pow(radix, |ds| - 1);
      var v := DigitsValue(ds[1..], radix);
      assert DigitsValue(ds, radix) == ds[0] * p + v;
      assert Pow(radix, |ds|) == radix * p;
      DigitsValueBelow(ds[1..], radix);
      StepBelow(ds[0], p, v, radix);
    }
  }

  /** A leading digit of at least one makes the value at least `radix^(k-1)`. */
  lemma DigitsValueAbove(ds: seq<nat>, radix: nat)
    requires |ds| >= 1 && ds[0] >= 1
    ensures DigitsValue(ds, radix) >= Pow(radix, |ds| - 1)
  {
    MulMonotone(Pow(radix, |ds| - 1), 1, ds[0]);
  }

  /** For digit strings of equal length, Rust's ordering is numeric order. */
  lemma {:induction false} LexLessIsValueLess(a: seq<nat>, b: seq<nat>, radix: nat)
    requires radix >= 1 && |a| == |b| && DigitsBelow(a, radix) && DigitsBelow(b, radix)
    ensures LexLess(a, b) <==> DigitsValue(a, radix) < DigitsValue(b, radix)
    decreases |a|
  {
    if a != [] {
      var p := Pow(radix, |a| - 1);
      var va := DigitsValue(a[1..], radix);
      var vb := DigitsValue(b[1..], radix);
      assert DigitsValue(a, radix) == a[0] * p + va;
      assert DigitsValue(b, radix) == b[0] * p + vb;
      DigitsValueBelow(a[1..], radix);
      DigitsValueBelow(b[1..], radix);
      if a[0] < b[0] {
        LeadingDigitDecides(a[0], va, b[0], vb, p);
      } else if a[0] > b[0] {
        LeadingDigitDecides(b[0], vb, a[0], va, p);
      } else {
        LexLessIsValueLess(a[1..], b[1..], radix);
      }
    }
  }

  /** With no superfluous leading zero, a longer digit string denotes a
      larger number. */
  lemma LongerIsLarger(a: seq<nat>, b: seq<nat>, radix: nat)
    requires radix >= 2 && Canonical(a) && |a| > |b| >= 1 && DigitsBelow(b, radix)
    ensures DigitsValue(b, radix) < DigitsValue(a, radix)
  {
    DigitsValueBelow(b, radix);
    DigitsValueAbove(a, radix);
    PowMonotone(radix, |b|, |a| - 1);
  }
}
