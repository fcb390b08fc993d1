/** Rust's `from_str_radix` for unsigned integers (`u8::from_str`,
    `u32::from_str`, `u32::from_str_radix(_, 16)`), which the parser calls on
    number and code-point tokens: an optional leading `+`, then digits read
    left to right, with an overflow check at every step against the type's
    maximum. Only the error kinds an unsigned type can produce appear. */
module RustInt {
  import opened Wrappers
  import opened Text

  datatype IntErrorKind = Empty | InvalidDigit | PosOverflow

  const U8Max: nat := 0xFF
  const U32Max: nat := 0xFFFF_FFFF

  /** The digit loop: `acc * radix + digit`, failing on the first byte that is
      no digit of `radix` or on the first step that exceeds `max`. */
  function Accumulate(acc: nat, ds: seq<byte>, radix: nat, max: nat): (r: Result<nat, IntErrorKind>)
    requires 2 <= radix <= 36
    decreases |ds|
  {
    if ds == [] then Ok(acc)
    else
      var d := DigitValue(ds[0]);
      if d.None? || d.value >= radix then Err(InvalidDigit)
      else if acc * radix + d.value > max then Err(PosOverflow)
      else Accumulate(acc * radix + d.value, ds[1..], radix, max)
  }

  function FromStrRadix(src: seq<byte>, radix: nat, max: nat): (r: Result<nat, IntErrorKind>)
    requires 2 <= radix <= 36
    ensures r.Ok? ==> r.value <= max
  {
    if src == [] then Err(IntErrorKind.Empty)
    else if (src[0] == 0x2B || src[0] == 0x2D) && |src| == 1 then Err(InvalidDigit) // a lone '+' or '-'
    else if src[0] == 0x2B then AccumulateBounded(src[1..], radix, max)
    else AccumulateBounded(src, radix, max)
  }

  function AccumulateBounded(ds: seq<byte>, radix: nat, max: nat): (r: Result<nat, IntErrorKind>)
    requires 2 <= radix <= 36
    ensures r.Ok? ==> r.value <= max
  {
    var r := Accumulate(0, ds, radix, max);
    AccumulateBelowMax(0, ds, radix, max);
    r
  }

  lemma {:induction false} AccumulateBelowMax(acc: nat, ds: seq<byte>, radix: nat, max: nat)
    requires 2 <= radix <= 36
    requires acc <= max
    ensures Accumulate(acc, ds, radix, max).Ok? ==> Accumulate(acc, ds, radix, max).value <= max
    decreases |ds|
  {
    if ds != [] {
      var d := DigitValue(ds[0]);
      if d.Some? && d.value < radix && acc * radix + d.value <= max {
        AccumulateBelowMax(acc * radix + d.value, ds[1..], radix, max);
      }
    }
  }

  /** Reading one more digit at the end is one more step of the loop. */
  lemma {:induction false} AccumulateSnoc(acc: nat, ds: seq<byte>, b: byte, radix: nat, max: nat)
    requires 2 <= radix <= 36
    ensures Accumulate(acc, ds + [b], radix, max) ==
      match Accumulate(acc, ds, radix, max)
      case Err(e) => Err(e)
      case Ok(v) => Accumulate(v, [b], radix, max)
    decreases |ds|
  {
    if ds == [] {
      assert ds + [b] == [b];
    } else {
      assert (ds + [b])[0] == ds[0];
      assert (ds + [b])[1..] == ds[1..] + [b];
      var d := DigitValue(ds[0]);
      if d.Some? && d.value < radix && acc * radix + d.value <= max {
        AccumulateSnoc(acc * radix + d.value, ds[1..], b, radix, max);
      }
    }
  }

  /** Parsing the digits of `n` gives `n` back, or an overflow when `n` does
      not fit: the inverse of `RadixString` for every type maximum. */
  lemma {:induction false} ParseRadixString(n: nat, radix: nat, max: nat)
    requires 2 <= radix <= 36
    ensures FromStrRadix(Utf8(RadixString(n, radix)), radix, max) ==
      if n <= max then Ok(n) else Err(PosOverflow)
  {
    var s := RadixString(n, radix);
    Utf8Ascii(s);
    assert Utf8Char(s[0])[0] == Utf8(s)[0];
    assert Utf8(s)[0] != 0x2B && Utf8(s)[0] != 0x2D by {
      assert DigitValue(Utf8(s)[0]).Some? by {
        if n < radix {
        } else {
          assert s[0] == RadixString(n / radix, radix)[0];
          LeadingDigit(n / radix, radix);
        }
      }
    }
    AccumulateDigits(n, radix, max);
  }

  lemma DivSmaller(n: nat, radix: nat)
    requires 2 <= radix <= n
    ensures n / radix < n
    ensures n == (n / radix) * radix + n % radix
  {
  }

  lemma {:induction false} LeadingDigit(n: nat, radix: nat)
    requires 2 <= radix <= 36
    ensures DigitValue(Utf8Char(RadixString(n, radix)[0])[0]).Some?
    decreases n
  {
    if n >= radix {
      DivSmaller(n, radix);
      assert RadixString(n, radix)[0] == RadixString(n / radix, radix)[0];
      LeadingDigit(n / radix, radix);
    }
  }

  lemma {:induction false} AccumulateDigits(n: nat, radix: nat, max: nat)
    requires 2 <= radix <= 36
    ensures Accumulate(0, Utf8(RadixString(n, radix)), radix, max) ==
      if n <= max then Ok(n) else Err(PosOverflow)
    decreases n
  {
    if n < radix {
      var b := Utf8Char(DigitChar(n))[0];
      assert Utf8([DigitChar(n)]) == [b];
      assert Accumulate(0, [b], radix, max) == (if n <= max then Ok(n) else Err(PosOverflow)) by {
        assert [b][1..] == [];
      }
    } else {
      DivSmaller(n, radix);
      var c := DigitChar(n % radix);
      var b := Utf8Char(c)[0];
      var prefix := RadixString(n / radix, radix);
      Utf8Concat(prefix, [c]);
      assert Utf8([c]) == [b];
      AccumulateSnoc(0, Utf8(prefix), b, radix, max);
      AccumulateDigits(n / radix, radix, max);
      assert n == (n / radix) * radix + n % radix;
      if n / radix <= max {
        assert [b][1..] == [];
      }
    }
  }
}
