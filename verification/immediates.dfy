/**
 `Instruction.ImmediateConstant`: a literal or symbolic constant held in an
 immediate field of `size` bits. A literal is cut to its low `size` bits and
 stored as an unsigned bit vector (modelled as a `nat` below `2^size`); it is
 read back as a two's-complement integer, as section 2.3 of the RISC-V
 unprivileged ISA reads immediates.
 */
module Immediates {
  import opened Wrappers

  function Pow2(n: nat): (r: nat)
    ensures r >= 1
  {
    if n == 0 then 1 else 2 * Pow2(n - 1)
  }

  /** A positive multiple of a positive number is at least that number. */
  lemma {:induction false} MultipleAtLeast(n: int, d: int)
    requires n > 0 && d >= 1
    ensures n * d >= n
    decreases d
  {
    if d > 1 {
      MultipleAtLeast(n, d - 1);
      assert n * d == n * (d - 1) + n;
    }
  }

  /** Euclidean division is determined by a quotient and a remainder in range. */
  lemma DivModUnique(a: int, n: int, q: int, m: int)
    requires n > 0 && 0 <= m < n && a == n * q + m
    ensures a / n == q && a % n == m
  {
    var q', m' := a / n, a % n;
    assert a == n * q' + m' && 0 <= m' < n;
    assert n * (q - q') == m' - m;
    if q - q' >= 1 {
      MultipleAtLeast(n, q - q');
    } else if q' - q >= 1 {
      MultipleAtLeast(n, q' - q);
    }
  }

  /** The mask the constructor accumulates bit by bit: the sum of `2^f` for `f` in `[0, size)`. */
  function Mask(size: nat): nat
  {
    if size == 0 then 0 else Mask(size - 1) + Pow2(size - 1)
  }

  /** The accumulated mask is `size` one-bits. */
  lemma {:induction false} MaskIsAllOnes(size: nat)
    ensures Mask(size) == Pow2(size) - 1
  {
    if size > 0 {
      MaskIsAllOnes(size - 1);
    }
  }

  /**
   Python's `a & m` for a non-negative `m`, bit by bit from the least significant
   end; a negative `a` contributes its two's-complement bits (`/` and `%` by 2
   floor here, as Python's do).
   */
  function BitAnd(a: int, m: nat): (r: nat)
    ensures r <= m
    decreases m
  {
    if m == 0 then 0
    else (if a % 2 == 1 && m % 2 == 1 then 1 else 0) + 2 * BitAnd(a / 2, m / 2)
  }

  /** One step of the mask: its lowest bit is set and the rest is the mask one bit shorter. */
  lemma MaskStep(a: int, size: nat)
    requires size > 0
    ensures BitAnd(a, Mask(size)) == a % 2 + 2 * BitAnd(a / 2, Mask(size - 1))
  {
    var m, half := Mask(size), Pow2(size - 1);
    MaskIsAllOnes(size);
    MaskIsAllOnes(size - 1);
    DivModUnique(m, 2, half - 1, 1);
  }

  /** The remainder by `2^size` splits off the lowest bit. */
  lemma ModStep(a: int, size: nat)
    requires size > 0
    ensures a % Pow2(size) == a % 2 + 2 * ((a / 2) % Pow2(size - 1))
  {
    var half, bit := Pow2(size - 1), a % 2;
    DivModUnique(a, 2, a / 2, bit);
    var q, low := (a / 2) / half, (a / 2) % half;
    assert a / 2 == half * q + low;
    Regroup(a, half, q, low, bit);
    DivModUnique(a, Pow2(size), q, 2 * low + bit);
  }

  /** Masking with `size` one-bits keeps the value modulo `2^size`. */
  lemma {:induction false} MaskKeepsLowBits(a: int, size: nat)
    ensures BitAnd(a, Mask(size)) == a % Pow2(size)
    decreases size
  {
    if size > 0 {
      MaskStep(a, size);
      MaskKeepsLowBits(a / 2, size - 1);
      ModStep(a, size);
    }
  }

  lemma Regroup(a: int, half: int, q: int, low: int, bit: int)
    requires a == 2 * (half * q + low) + bit
    ensures a == (2 * half) * q + (2 * low + bit)
  {
  }

  /**
   An immediate constant: its field size, its symbol if any, and its stored bits if
   it was given a value (`BitVector` is modelled as the unsigned number it holds).
   */
  datatype Immediate = Immediate(size: nat, symbol: Option<string>, bits: Option<nat>)

  /** What the constructor guarantees of every constant it returns. */
  predicate Valid(c: Immediate)
  {
    && (c.symbol.Some? || c.bits.Some?)
    && (c.bits.Some? ==> 1 <= c.size && c.bits.value < Pow2(c.size))
  }

  /** The `ValueError` raised for a constant that is neither symbolic nor valued. */
  datatype ImmediateError = NeitherSymbolNorValue

  /** `ImmediateConstant(size, symbol, value)`. */
  function NewImmediate(size: nat, symbol: Option<string>, value: Option<int>): (r: Result<Immediate, ImmediateError>)
    requires value.Some? ==> size >= 1
    ensures r.Failure? <==> symbol.None? && value.None?
    ensures r.Success? ==> Valid(r.value) && r.value.size == size && r.value.symbol == symbol
    ensures r.Success? ==> (r.value.bits.Some? <==> value.Some?)
    ensures r.Success? && value.Some? ==> r.value.bits.value == value.value % Pow2(size)
  {
    if symbol.None? && value.None? then Failure(NeitherSymbolNorValue)
    else if value.Some? then
      MaskKeepsLowBits(value.value, size);
      Success(Immediate(size, symbol, Some(BitAnd(value.value, Mask(size)))))
    else Success(Immediate(size, symbol, None))
  }

  /** `self._value[0] == 1`: the most significant of the `size` stored bits is set. */
  predicate SignBit(bits: nat, size: nat)
    requires size >= 1
  {
    bits >= Pow2(size - 1)
  }

  /** `~self._value`, read as an unsigned number: every one of the `size` bits flipped. */
  function Complement(bits: nat, size: nat): nat
    requires bits < Pow2(size)
  {
    Pow2(size) - 1 - bits
  }

  /** `int_val`: the two's-complement reading of the stored bits. */
  function IntVal(c: Immediate): (r: int)
    requires Valid(c) && c.bits.Some?
    ensures -(Pow2(c.size - 1) as int) <= r < Pow2(c.size - 1)
    ensures r % Pow2(c.size) == c.bits.value
  {
    var b, n := c.bits.value, c.size;
    assert Pow2(n) == 2 * Pow2(n - 1);
    if SignBit(b, n) then
      var r := -(Complement(b, n) + 1);
      DivModUnique(r, Pow2(n), -1, b);
      r
    else
      DivModUnique(b, Pow2(n), 0, b);
      b
  }

  /** Any value in the field's signed range survives construction followed by `int_val`. */
  lemma SignedRoundTrip(size: nat, v: int)
    requires size >= 1 && -(Pow2(size - 1) as int) <= v < Pow2(size - 1)
    ensures NewImmediate(size, None, Some(v)).Success?
    ensures IntVal(NewImmediate(size, None, Some(v)).value) == v
  {
    var c := NewImmediate(size, None, Some(v)).value;
    assert Pow2(size) == 2 * Pow2(size - 1);
    if v >= 0 {
      DivModUnique(v, Pow2(size), 0, v);
    } else {
      DivModUnique(v, Pow2(size), -1, v + Pow2(size));
    }
  }

  /** Rebuilding a valued constant from its `int_val` gives back the same constant. */
  lemma RebuildFromIntVal(c: Immediate)
    requires Valid(c) && c.bits.Some?
    ensures NewImmediate(c.size, c.symbol, Some(IntVal(c))) == Success(c)
  {
  }

  /** Decimal digits of a natural number, most significant first. */
  predicate AllDigits(s: string)
  {
    forall i :: 0 <= i < |s| ==> '0' <= s[i] <= '9'
  }

  /** Digits as `str` prints a natural number: at least one, and no leading zero except in "0". */
  predicate CanonicalDigits(d: string)
  {
    |d| >= 1 && AllDigits(d) && (d[0] == '0' ==> |d| == 1)
  }

  /** A numeral as `str` prints an integer: canonical digits, with a minus sign only before a non-zero magnitude. */
  predicate Canonical(s: string)
  {
    || CanonicalDigits(s)
    || (|s| >= 2 && s[0] == '-' && CanonicalDigits(s[1..]) && s[1] != '0')
  }

  function NatToDecimal(n: nat): (s: string)
    ensures CanonicalDigits(s)
    ensures s[0] == '0' <==> n == 0
    decreases n
  {
    if n < 10 then [('0' as int + n) as char]
    else NatToDecimal(n / 10) + [('0' as int + n % 10) as char]
  }

  /** The number a string of decimal digits denotes. */
  function DecimalValue(s: string): nat
    requires AllDigits(s)
  {
    if |s| == 0 then 0
    else 10 * DecimalValue(s[..|s| - 1]) + (s[|s| - 1] as int - '0' as int)
  }

  /** Python's `str` of an integer. */
  function IntToDecimal(i: int): string
  {
    if i < 0 then "-" + NatToDecimal(-i) else NatToDecimal(i)
  }

  /** Reading a decimal integer back, as Python's `int` of a string does for these strings. */
  function ParseDecimal(s: string): Option<int>
  {
    if |s| >= 2 && s[0] == '-' && AllDigits(s[1..]) then Some(-(DecimalValue(s[1..]) as int))
    else if |s| >= 1 && AllDigits(s) then Some(DecimalValue(s))
    else None
  }

  lemma {:induction false} NatToDecimalValue(n: nat)
    ensures DecimalValue(NatToDecimal(n)) == n
    decreases n
  {
    var s := NatToDecimal(n);
    if n >= 10 {
      NatToDecimalValue(n / 10);
      assert s[..|s| - 1] == NatToDecimal(n / 10);
    }
  }

  lemma NegativeDecimal(n: nat)
    requires n > 0
    ensures ParseDecimal("-" + NatToDecimal(n)) == Some(-(n as int))
  {
    var d := NatToDecimal(n);
    var s := "-" + d;
    NatToDecimalValue(n);
    assert s[0] == '-' && s[1..] == d && |s| >= 2;
  }

  lemma NonNegativeDecimal(n: nat)
    ensures ParseDecimal(NatToDecimal(n)) == Some(n)
  {
    var d := NatToDecimal(n);
    NatToDecimalValue(n);
    assert '0' <= d[0] <= '9';
  }

  /** Printing an integer in decimal loses nothing. */
  lemma DecimalRoundTrip(i: int)
    ensures ParseDecimal(IntToDecimal(i)) == Some(i)
  {
    if i < 0 {
      NegativeDecimal(-i);
    } else {
      NonNegativeDecimal(i);
    }
  }

  /** A numeral of canonical digits denotes at least 1 unless it is "0". */
  lemma {:induction false} DecimalPositive(d: string)
    requires CanonicalDigits(d) && d[0] != '0'
    ensures DecimalValue(d) >= 1
    decreases |d|
  {
    if |d| > 1 {
      DecimalPositive(d[..|d| - 1]);
    }
  }

  /** Canonical digits are exactly what `NatToDecimal` prints for the number they denote. */
  lemma {:induction false} DigitsRoundTrip(d: string)
    requires CanonicalDigits(d)
    ensures NatToDecimal(DecimalValue(d)) == d
    decreases |d|
  {
    if |d| > 1 {
      var init, x := d[..|d| - 1], d[|d| - 1] as int - '0' as int;
      DecimalPositive(init);
      DigitsRoundTrip(init);
      var v := DecimalValue(d);
      assert v == 10 * DecimalValue(init) + x && 0 <= x < 10;
      assert v / 10 == DecimalValue(init) && v % 10 == x;
      assert d == init + [d[|d| - 1]];
    }
  }

  /** `str` of an integer is a canonical numeral. */
  lemma PrintedCanonical(i: int)
    ensures Canonical(IntToDecimal(i))
  {
    if i < 0 {
      var s := IntToDecimal(i);
      assert s[1..] == NatToDecimal(-i);
    }
  }

  /** A canonical numeral is exactly what `str` prints for the integer it denotes, so there is one per integer. */
  lemma CanonicalIsPrinted(s: string)
    requires Canonical(s)
    ensures ParseDecimal(s).Some? && IntToDecimal(ParseDecimal(s).value) == s
  {
    if CanonicalDigits(s) {
      DigitsRoundTrip(s);
    } else {
      var d := s[1..];
      DecimalPositive(d);
      DigitsRoundTrip(d);
      assert s == "-" + d;
    }
  }

  /** `str(constant)`: the symbol when there is one, otherwise the decimal `int_val` as `str` prints it. */
  function ImmediateToString(c: Immediate): (s: string)
    requires Valid(c)
    ensures c.symbol.Some? ==> s == c.symbol.value
    ensures c.symbol.None? ==> Canonical(s) && ParseDecimal(s) == Some(IntVal(c))
  {
    if c.symbol.None? then
      DecimalRoundTrip(IntVal(c));
      PrintedCanonical(IntVal(c));
      IntToDecimal(IntVal(c))
    else c.symbol.value
  }
}
