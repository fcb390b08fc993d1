/** Characters, their UTF-8 bytes, and the alphanumeric digits used by
    Rust's integer parsing and by pomsky's range literals.
    Strings are `seq<char>` whose elements are Unicode scalar values;
    wherever the Rust code works on bytes (`str::bytes`, byte slicing,
    byte lengths), the model goes through `Utf8`. */
module Text {
  import opened Wrappers

  newtype byte = x: int | 0 <= x < 0x100

  predicate IsAscii(c: char) {
    c as int < 0x80
  }

  predicate AllAscii(s: string) {
    forall i :: 0 <= i < |s| ==> IsAscii(s[i])
  }

  /** The UTF-8 encoding of one character: one byte for ASCII, and
      otherwise two to four bytes, all of them 0x80 or above. */
  function Utf8Char(c: char): (bs: seq<byte>)
    ensures 1 <= |bs| <= 4
    ensures |bs| == 1 <==> IsAscii(c)
    ensures IsAscii(c) ==> bs[0] as int == c as int
    ensures !IsAscii(c) ==> forall i :: 0 <= i < |bs| ==> bs[i] >= 0x80
  {
    var n := c as int;
    if n < 0x80 then
      [n as byte]
    else if n < 0x800 then
      [(0xC0 + n / 0x40) as byte, (0x80 + n % 0x40) as byte]
    else if n < 0x1_0000 then
      [(0xE0 + n / 0x1000) as byte, (0x80 + (n / 0x40) % 0x40) as byte, (0x80 + n % 0x40) as byte]
    else
      [(0xF0 + n / 0x4_0000) as byte, (0x80 + (n / 0x1000) % 0x40) as byte,
       (0x80 + (n / 0x40) % 0x40) as byte, (0x80 + n % 0x40) as byte]
  }

  /** The UTF-8 encoding of a string (what Rust's `str::as_bytes` sees). */
  function Utf8(s: string): (bs: seq<byte>)
    ensures |bs| >= |s|
  {
    if s == [] then [] else Utf8Char(s[0]) + Utf8(s[1..])
  }

  lemma {:induction false} Utf8Concat(a: string, b: string)
    ensures Utf8(a + b) == Utf8(a) + Utf8(b)
  {
    if a == [] {
      assert a + b == b;
    } else {
      assert (a + b)[0] == a[0];
      assert (a + b)[1..] == a[1..] + b;
      Utf8Concat(a[1..], b);
    }
  }

  /** On ASCII text the bytes are the characters themselves. */
  lemma {:induction false} Utf8Ascii(s: string)
    requires AllAscii(s)
    ensures |Utf8(s)| == |s|
    ensures forall i :: 0 <= i < |s| ==> Utf8(s)[i] as int == s[i] as int
  {
    if s != [] {
      Utf8Ascii(s[1..]);
    }
  }

  /** The number of bytes `s` takes in UTF-8. */
  function Utf8Len(s: string): nat {
    |Utf8(s)|
  }

  /** The value of an alphanumeric digit byte: `0`-`9` are 0-9, and
      `a`-`z` and `A`-`Z` are 10-35; every other byte is no digit. */
  function DigitValue(b: byte): (d: Option<nat>)
    ensures d.Some? ==> d.value < 36
    ensures d.Some? <==> (0x30 <= b <= 0x39 || 0x61 <= b <= 0x7A || 0x41 <= b <= 0x5A)
  {
    if 0x30 <= b <= 0x39 then Some((b - 0x30) as nat)        // '0'..='9'
    else if 0x61 <= b <= 0x7A then Some((b - 0x61) as nat + 10) // 'a'..='z'
    else if 0x41 <= b <= 0x5A then Some((b - 0x41) as nat + 10) // 'A'..='Z'
    else None
  }

  /** The lower-case character for a digit value below 36. */
  function DigitChar(d: nat): (c: char)
    requires d < 36
    ensures IsAscii(c)
    ensures DigitValue(Utf8Char(c)[0]) == Some(d)
  {
    if d < 10 then (0x30 + d) as char else (0x61 + d - 10) as char
  }

  /** `n` written in base `radix` with lower-case digits and no leading zero. */
  function RadixString(n: nat, radix: nat): (s: string)
    requires 2 <= radix <= 36
    ensures 1 <= |s| && AllAscii(s)
    decreases n
  {
    if n < radix then [DigitChar(n)]
    else
      var q, d := n / radix, n % radix;
      assert q < n by { MulMonotone(n, 2, radix); DivBelow(n, radix, n); }
      var init := RadixString(q, radix);
      var last := [DigitChar(d)];
      assert forall i :: 0 <= i < |init| ==> (init + last)[i] == init[i];
      assert (init + last)[|init|] == last[0];
      init + last
  }

  function Pow(b: nat, e: nat): (p: nat)
    ensures b >= 1 ==> p >= 1
  {
    if e == 0 then 1 else b * Pow(b, e - 1)
  }

  lemma MulMonotone(a: nat, b: nat, c: nat)
    requires b <= c
    ensures a * b <= a * c
  {
  }

  lemma DivBelow(n: nat, r: nat, p: nat)
    requires r >= 1 && n < r * p
    ensures n / r < p
  {
    var q := n / r;
    assert r * q <= n;
    if q >= p {
      MulMonotone(r, p, q);
    }
  }

  /** A number below `radix^k` needs at most `k` digits. */
  lemma {:induction false} RadixStringLength(n: nat, radix: nat, k: nat)
    requires 2 <= radix <= 36
    requires 1 <= k && n < Pow(radix, k)
    ensures |RadixString(n, radix)| <= k
    decreases n
  {
    if n >= radix {
      var p := Pow(radix, k - 1);
      assert Pow(radix, k) == radix * p;
      assert Pow(radix, 1) == radix;
      var q := n / radix;
      DivBelow(n, radix, p);
      assert q < n by { MulMonotone(n, 2, radix); DivBelow(n, radix, n); }
      RadixStringLength(q, radix, k - 1);
      assert |RadixString(n, radix)| == |RadixString(q, radix)| + 1;
    }
  }
}
