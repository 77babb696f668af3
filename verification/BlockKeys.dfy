/** The keys of the Eth1 cache: block numbers as zero-padded decimal strings, and the key of the deposit tree. */
module BlockKeys {
  import opened Results
  import opened Arithmetic
  import opened ByteOrder

  const DIGITS: nat := 20
  /** The bytes of "bk". */
  const BLOCK_KEY_PREFIX: Key := [98, 107]
  /** The bytes of "deposit_tree". */
  const DEPOSIT_TREE_KEY: Key := [100, 101, 112, 111, 115, 105, 116, 95, 116, 114, 101, 101]

  function Pow10(n: nat): (r: nat)
    ensures r > 0
  {
    if n == 0 then 1 else 10 * Pow10(n - 1)
  }

  /** The last `width` decimal digits, most significant first. */
  function Decimal(n: nat, width: nat): (r: Key)
    ensures |r| == width
  {
    if width == 0 then [] else Decimal(n / 10, width - 1) + [48 + n % 10]
  }

  /** `block_key`: 20 digits hold every `u64`. */
  function BlockKey(number: nat): (r: Key)
    ensures BLOCK_KEY_PREFIX <= r
  {
    BLOCK_KEY_PREFIX + Decimal(number, DIGITS)
  }

  lemma {:induction false} LessOfAppend(a: Key, b: Key, x: Byte, y: Byte)
    requires |a| == |b|
    ensures Less(a + [x], b + [y]) <==> Less(a, b) || (a == b && x < y)
  {
    if a == [] {
      assert Less([x][1..], [y][1..]) == false;
    } else {
      LessOfAppend(a[1..], b[1..], x, y);
      assert (a + [x])[1..] == a[1..] + [x] && (b + [y])[1..] == b[1..] + [y];
      assert a == [a[0]] + a[1..] && b == [b[0]] + b[1..];
    }
  }

  lemma {:induction false} LessOfPrefixed(prefix: Key, a: Key, b: Key)
    ensures Less(prefix + a, prefix + b) <==> Less(a, b)
  {
    if prefix == [] {
      assert prefix + a == a && prefix + b == b;
    } else {
      LessOfPrefixed(prefix[1..], a, b);
      assert (prefix + a)[1..] == prefix[1..] + a && (prefix + b)[1..] == prefix[1..] + b;
    }
  }

  /** Decimal strings of one width compare like the numbers they stand for. */
  lemma {:induction false} DecimalOrder(m: nat, n: nat, width: nat)
    requires m < Pow10(width) && n < Pow10(width)
    ensures Less(Decimal(m, width), Decimal(n, width)) <==> m < n
    ensures Decimal(m, width) == Decimal(n, width) <==> m == n
  {
    hide Less, Decimal, Pow10;
    if width == 0 {
      NoDigits(m, n);
    } else {
      TenthFits(m, width);
      TenthFits(n, width);
      DecimalOrder(m / 10, n / 10, width - 1);
      var a, b := Decimal(m / 10, width - 1), Decimal(n / 10, width - 1);
      LastDigit(m, width);
      LastDigit(n, width);
      LessOfAppend(a, b, 48 + m % 10, 48 + n % 10);
      assert Decimal(m, width)[..width - 1] == a && Decimal(n, width)[..width - 1] == b;
    }
  }

  lemma NoDigits(m: nat, n: nat)
    requires m < Pow10(0) && n < Pow10(0)
    ensures m == n == 0 && !Less(Decimal(m, 0), Decimal(n, 0))
  {
  }

  lemma TenthFits(n: nat, width: nat)
    requires width > 0 && n < Pow10(width)
    ensures n / 10 < Pow10(width - 1)
  {
  }

  lemma LastDigit(n: nat, width: nat)
    requires width > 0
    ensures Decimal(n, width) == Decimal(n / 10, width - 1) + [48 + n % 10]
  {
  }

  lemma U64FitsDigits()
    ensures U64_MAX < Pow10(DIGITS)
  {
    assert Pow10(5) == 100000;
    assert Pow10(10) == 100000 * 100000;
    assert Pow10(15) == 100000 * 100000 * 100000;
    assert Pow10(20) == 100000 * 100000 * 100000 * 100000;
  }

  /** Block keys are distinct and ordered like block numbers, for every `u64`. */
  lemma BlockKeyOrder(m: nat, n: nat)
    requires m <= U64_MAX && n <= U64_MAX
    ensures Less(BlockKey(m), BlockKey(n)) <==> m < n
    ensures BlockKey(m) == BlockKey(n) <==> m == n
  {
    hide Less, Decimal, Pow10;
    U64FitsDigits();
    DecimalOrder(m, n, DIGITS);
    LessOfPrefixed(BLOCK_KEY_PREFIX, Decimal(m, DIGITS), Decimal(n, DIGITS));
    assert BlockKey(m)[2..] == Decimal(m, DIGITS) && BlockKey(n)[2..] == Decimal(n, DIGITS);
  }

  /** A block key is "bk" and the 20 decimal digits of the number, the most significant first. */
  lemma DigitsOfKey(number: nat, i: nat)
    requires i < 20
    ensures |BlockKey(number)| == 22 && BlockKey(number)[..2] == [98, 107]
    ensures BlockKey(number)[2 + i] == 48 + number / Pow10(19 - i) % 10
  {
    hide Decimal, Pow10;
    DigitAt(number, 20, i);
  }

  lemma {:induction false} DigitAt(n: nat, width: nat, i: nat)
    requires i < width
    ensures Decimal(n, width)[i] == 48 + n / Pow10(width - 1 - i) % 10
  {
    if i == width - 1 {
      assert Pow10(0) == 1;
    } else {
      DigitAt(n / 10, width - 1, i);
      DivideTwice(n, 10, Pow10(width - 2 - i));
    }
  }

  lemma DivideTwice(n: nat, a: nat, b: nat)
    requires a > 0 && b > 0
    ensures a * b > 0 && n / a / b == n / (a * b)
  {
    var q := n / a / b;
    DivBounds(n, a);
    DivBounds(n / a, b);
    MulMonotone(q * b, n / a, a);
    MulMonotone(n / a + 1, (q + 1) * b, a);
    MulAssociates(q, b, a);
    MulAssociates(q + 1, b, a);
    DivUnique(n, a * b, q);
  }

  /** The deposit tree comes after all blocks and is not taken for one. */
  lemma DepositTreeKeyIsLast(number: nat)
    ensures Less(BlockKey(number), DEPOSIT_TREE_KEY)
    ensures BlockKey(number) != DEPOSIT_TREE_KEY && !(BLOCK_KEY_PREFIX <= DEPOSIT_TREE_KEY)
  {
  }
}
