/** Text output of infra/stream/OutputStream.cpp on a bounded string
    (infra/stream/StringOutputStream.cpp). */
module TextStream {
  import opened Common

  // ---------------------------------------------------------------------------------------------
  // Digits
  // ---------------------------------------------------------------------------------------------

  function Power(base: nat, n: nat): (r: nat)
    requires base > 0
    ensures r > 0
  {
    if n == 0 then 1 else base * Power(base, n - 1)
  }

  /** hexChars; decimal output only uses the first ten. */
  function DigitChar(d: nat): char
    requires d < 16
  {
    if d < 10 then d as char + '0' else (d - 10) as char + 'a'
  }

  lemma DigitCharIs(d: nat)
    requires d < 16
    ensures DigitChar(d) == (DIGITS + "abcdef")[d]
  {
    if d < 10 { DigitsInOrder(d); }
  }

  /** The lowest n digits of v, most significant first. */
  function LowDigits(base: nat, v: nat, n: nat): (r: string)
    requires base == 10 || base == 16
    ensures |r| == n
  {
    if n == 0 then [] else [DigitChar(v / Power(base, n - 1) % base)] + LowDigits(base, v, n - 1)
  }

  /** How many digits v needs: at least one. */
  function Width(base: nat, v: nat): (n: nat)
    requires base == 10 || base == 16
    ensures n > 0
  {
    if v < base then 1 else DivideSmaller(v, base); 1 + Width(base, v / base)
  }

  /** A number with leading zeros up to a width; none if it is as wide already. */
  function Padded(base: nat, v: nat, width: nat): string
    requires base == 10 || base == 16
  {
    LowDigits(base, v, if Width(base, v) < width then width else Width(base, v))
  }

  // Arithmetic on one product or quotient at a time.

  lemma DivideSmaller(v: nat, base: nat)
    requires (base == 10 || base == 16) && base <= v
    ensures v / base < v
  {
    if base == 10 {
      assert v / 10 < v;
    } else {
      assert v / 16 < v;
    }
  }

  lemma DivideProduct(base: nat, p: nat)
    requires base == 10 || base == 16
    ensures (base * p) / base == p
  {
    if base == 10 {
      assert (10 * p) / 10 == p;
    } else {
      assert (16 * p) / 16 == p;
    }
  }

  lemma DivideBig(v: nat, p: nat)
    requires v < p
    ensures v / p == 0
  {
  }

  lemma Scale(v: nat, base: nat, p: nat)
    requires base > 0 && v / base < p
    ensures v < base * p
  {
    var q := v / base;
    assert v == base * q + v % base;
    assert base * (p - 1 - q) >= 0;
    assert base * (p - 1 - q) == base * p - base - base * q;
  }

  lemma ScaleUp(v: nat, base: nat, p: nat)
    requires base > 0 && p <= v / base
    ensures base * p <= v
  {
    var q := v / base;
    assert v == base * q + v % base;
    assert base * (q - p) >= 0;
    assert base * (q - p) == base * q - base * p;
  }

  lemma Grows(v: nat, p: nat)
    requires p > 0
    ensures v <= p * v
  {
  }

  lemma PowerStep(base: nat, n: nat)
    requires base > 0
    ensures Power(base, n + 1) == base * Power(base, n)
  {
  }

  lemma PowerStart(base: nat)
    requires base > 0
    ensures Power(base, 0) == 1 && Power(base, 1) == base
  {
  }

  lemma PowersOfTen()
    ensures Power(10, 3) == 1000 && Power(10, 6) == 1_000_000 && Power(10, 9) == 1_000_000_000
  {
    assert Power(10, 1) == 10 && Power(10, 2) == 100 && Power(10, 4) == 10000 && Power(10, 5) == 100000;
    assert Power(10, 7) == 10000000 && Power(10, 8) == 100000000;
  }

  lemma {:induction false} WidthIs(base: nat, v: nat)
    requires base == 10 || base == 16
    ensures v < Power(base, Width(base, v))
    ensures v < base || Power(base, Width(base, v) - 1) <= v
    decreases v
  {
    PowerStart(base);
    hide Power;
    if v >= base {
      DivideSmaller(v, base);
      WidthIs(base, v / base);
      var n := Width(base, v / base);
      Scale(v, base, Power(base, n));
      PowerStep(base, n);
      if v / base >= base {
        ScaleUp(v, base, Power(base, n - 1));
        PowerStep(base, n - 1);
      }
    }
  }

  /** The two neighbouring powers determine the width. */
  lemma {:induction false} WidthUnique(base: nat, v: nat, n: nat)
    requires (base == 10 || base == 16) && v < Power(base, n) && n > 0
    requires n == 1 || Power(base, n - 1) <= v
    ensures Width(base, v) == n
  {
    WidthIs(base, v);
    PowerStart(base);
    var w := Width(base, v);
    hide Power, Width;
    PowerMonotone(base, 1, n);
    if w < n {
      PowerMonotone(base, w, n - 1);
    } else if w > n {
      PowerMonotone(base, n, w - 1);
    }
  }

  lemma {:induction false} PowerMonotone(base: nat, a: nat, b: nat)
    requires base > 0 && a <= b
    ensures Power(base, a) <= Power(base, b)
    decreases b
  {
    if a < b {
      PowerMonotone(base, a, b - 1);
      Grows(Power(base, b - 1), base);
    }
  }

  // ---------------------------------------------------------------------------------------------
  // The stream
  // ---------------------------------------------------------------------------------------------

  /** A text stream on a string of `max` characters. `wanted` is everything that was inserted. */
  class TextOutputStream {
    const max: nat
    var text: string
    var failed: bool
    ghost var wanted: string

    /** The stream has failed exactly if what was inserted did not fit; then it is cut off. */
    ghost predicate Valid() reads this { text == Head(wanted, max) && failed == (|wanted| > max) }

    constructor (max: nat)
      ensures Valid() && this.max == max && wanted == []
    {
      this.max, text, failed, wanted := max, [], false, [];
    }

    /** StringOutputStreamWriter::Insert with an error policy that records the failure. */
    method Insert(range: string)
      requires Valid()
      modifies this
      ensures Valid() && wanted == old(wanted) + range
    {
      var spaceLeft := max - |text|;
      var kept := range;
      if |range| > spaceLeft {
        failed := true;
        kept := range[..spaceLeft];
      }
      text := text + kept;
      wanted := wanted + range;
      assert text == Head(wanted, max);
    }

    /** OutputAsDecimal and OutputAsHexadecimal, with padding of zeros. The padding comes before the
        sign, which counts as a digit. */
    method Output(base: nat, v: nat, negative: bool, width: nat)
      requires Valid() && (base == 10 || base == 16) && v < UINT64
      modifies this
      ensures Valid()
      ensures wanted == old(wanted) + Filled(base, v, negative, width)
      ensures !negative ==> wanted == old(wanted) + Padded(base, v, width)
      ensures width == 0 ==> wanted == old(wanted) + (if negative then "-" else "") + Padded(base, v, 0)
    {
      hide LowDigits, Power, Width, Head, Padded;
      var nofDigits, mask := CountDigits(base, v);
      OutputPadding(if negative then nofDigits + 1 else nofDigits, width);
      if negative {
        Insert("-");
      }
      OutputDigits(base, v, nofDigits, mask);
      PaddedIs(base, v, width);
      PaddedIs(base, v, 0);
    }

    method OutputPadding(nofDigits: nat, width: nat)
      requires Valid()
      modifies this
      ensures Valid() && wanted == old(wanted) + Zeros(if nofDigits < width then width - nofDigits else 0)
    {
      hide Head;
      ghost var start := wanted;
      var i := nofDigits;
      while i < width
        invariant nofDigits <= i && (i <= width || i == nofDigits)
        invariant Valid() && wanted == start + Zeros(i - nofDigits)
        decreases width - i
      {
        Insert("0");
        i := i + 1;
      }
    }

    method OutputDigits(base: nat, v: nat, nofDigits: nat, mask: nat)
      requires Valid() && (base == 10 || base == 16) && nofDigits > 0 && mask == Power(base, nofDigits - 1)
      modifies this
      ensures Valid() && wanted == old(wanted) + LowDigits(base, v, nofDigits)
    {
      ghost var start := wanted;
      ghost var left := nofDigits;
      var mask := mask;
      while mask != 0
        invariant 0 <= left && (left > 0 ==> mask == Power(base, left - 1)) && (left == 0 ==> mask == 0)
        invariant Valid() && wanted + LowDigits(base, v, left) == start + LowDigits(base, v, nofDigits)
        decreases mask
      {
        Insert([DigitChar(v / mask % base)]);
        DividePower(base, left);
        mask := mask / base;
        left := left - 1;
      }
    }
  }

  /** The first loop: the number of digits and the power of the most significant one. */
  method CountDigits(base: nat, v: nat) returns (nofDigits: nat, mask: nat)
    requires (base == 10 || base == 16) && v < UINT64
    ensures nofDigits == Width(base, v) && mask == Power(base, nofDigits - 1)
  {
    nofDigits, mask := 1, 1;
    PowerStart(base);
    DivideByOne(v);
    hide Power, Width;
    while v / mask >= base
      invariant nofDigits >= 1 && 0 < mask == Power(base, nofDigits - 1)
      invariant nofDigits == 1 || mask <= v
      decreases v - mask
    {
      ScaleUp(v, mask, base);
      NoOverflow(mask, base, v);
      PowerStep(base, nofDigits - 1);
      mask := mask * base % UINT64;
      nofDigits := nofDigits + 1;
    }
    Scale(v, mask, base);
    PowerStep(base, nofDigits - 1);
    WidthUnique(base, v, nofDigits);
  }

  lemma DividePower(base: nat, left: nat)
    requires (base == 10 || base == 16) && left > 0
    ensures Power(base, left - 1) / base == if left == 1 then 0 else Power(base, left - 2)
    ensures Power(base, left - 1) / base < Power(base, left - 1)
  {
    PowerStart(base);
    hide Power;
    if left > 1 {
      var p := Power(base, left - 2);
      PowerStep(base, left - 2);
      DivideProduct(base, p);
    }
  }

  lemma DivideByOne(v: nat)
    ensures v / 1 == v
  {
  }

  lemma NoOverflow(mask: nat, base: nat, v: nat)
    requires mask * base <= v < UINT64 && base >= 2 && mask > 0
    ensures mask * base % UINT64 == base * mask && mask < mask * base
  {
  }

  /** Zeros up to the width, the sign, and the digits. */
  function Filled(base: nat, v: nat, negative: bool, width: nat): string
    requires base == 10 || base == 16
  {
    var n := Width(base, v) + if negative then 1 else 0;
    Zeros(if n < width then width - n else 0) + (if negative then "-" else "") + LowDigits(base, v, Width(base, v))
  }

  function Zeros(n: nat): string { if n == 0 then "" else Zeros(n - 1) + "0" }

  lemma {:induction false} LeadingZeros(base: nat, v: nat, n: nat, k: nat)
    requires (base == 10 || base == 16) && v < Power(base, n)
    ensures LowDigits(base, v, n + k) == Zeros(k) + LowDigits(base, v, n)
    decreases k
  {
    if k > 0 {
      LeadingZeros(base, v, n, k - 1);
      LeadingZero(base, v, n, n + k);
      ZerosFirst(k - 1);
      hide LowDigits, Power, Zeros;
      assert "0" + (Zeros(k - 1) + LowDigits(base, v, n)) == ("0" + Zeros(k - 1)) + LowDigits(base, v, n);
    }
  }

  lemma {:induction false} ZerosFirst(k: nat)
    ensures Zeros(k) + "0" == "0" + Zeros(k) == Zeros(k + 1)
  {
    if k > 0 { ZerosFirst(k - 1); }
  }

  /** Padding puts zeros before the number. */
  lemma PaddedIs(base: nat, v: nat, width: nat)
    requires base == 10 || base == 16
    ensures var n := Width(base, v);
            Padded(base, v, width) == Zeros(if n < width then width - n else 0) + LowDigits(base, v, n)
  {
    WidthIs(base, v);
    hide LowDigits, Power, Width;
    var n := Width(base, v);
    if n < width { LeadingZeros(base, v, n, width - n); }
  }

  lemma LeadingZero(base: nat, v: nat, n: nat, digits: nat)
    requires (base == 10 || base == 16) && v < Power(base, n) && n < digits
    ensures LowDigits(base, v, digits) == "0" + LowDigits(base, v, digits - 1)
  {
    hide Power;
    PowerMonotone(base, n, digits - 1);
    DivideBig(v, Power(base, digits - 1));
  }
}
