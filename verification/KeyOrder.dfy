/** The order in which an object built from sorted entries enumerates its keys. */
module KeyOrder {

  predicate IsDigit(c: char) {
    '0' <= c <= '9'
  }

  /** Lexicographic order of two texts. */
  predicate LexBefore(a: string, b: string) {
    b != [] && (a == [] || a[0] < b[0] || (a[0] == b[0] && LexBefore(a[1..], b[1..])))
  }

  /** The largest array index is 2^32 - 2. */
  const LARGEST_INDEX := "4294967294"

  /** Canonical decimal text of an array index: engines enumerate such keys first, in numeric order. */
  predicate IsArrayIndex(key: string) {
    && key != []
    && (forall c | c in key :: IsDigit(c))
    && (key[0] == '0' ==> |key| == 1)
    && (|key| < 10 || (|key| == 10 && !LexBefore(LARGEST_INDEX, key)))
  }

  /**
   * Indices come first and grow by value, which for canonical decimals is by length and then by digits; all
   * other keys keep the sorted order in which they were inserted.
   */
  predicate KeyBefore(a: string, b: string) {
    if IsArrayIndex(a) != IsArrayIndex(b) then IsArrayIndex(a)
    else if IsArrayIndex(a) && |a| != |b| then |a| < |b|
    else LexBefore(a, b)
  }

  lemma {:induction false} LexIsTotal(a: string, b: string)
    ensures LexBefore(a, b) || a == b || LexBefore(b, a)
    ensures LexBefore(a, b) ==> !LexBefore(b, a) && a != b
  {
    if a != [] && b != [] {
      LexIsTotal(a[1..], b[1..]);
      assert a == [a[0]] + a[1..] && b == [b[0]] + b[1..];
    }
  }

  lemma {:induction false} LexIsTransitive(a: string, b: string, c: string)
    requires LexBefore(a, b) && LexBefore(b, c)
    ensures LexBefore(a, c)
  {
    if a != [] && a[0] == b[0] && b[0] == c[0] {
      LexIsTransitive(a[1..], b[1..], c[1..]);
    }
  }

  /** Exactly one of two different keys comes before the other. */
  lemma KeyOrderIsTotal(a: string, b: string)
    ensures KeyBefore(a, b) || a == b || KeyBefore(b, a)
    ensures KeyBefore(a, b) ==> !KeyBefore(b, a) && a != b
  {
    hide IsArrayIndex;
    LexIsTotal(a, b);
  }

  lemma KeyOrderIsTransitive(a: string, b: string, c: string)
    requires KeyBefore(a, b) && KeyBefore(b, c)
    ensures KeyBefore(a, c)
  {
    hide IsArrayIndex;
    if LexBefore(a, b) && LexBefore(b, c) {
      LexIsTransitive(a, b, c);
    }
  }

  // ----- what the order means

  /** The texts agree up to this place, where the first one ends or has the smaller character. */
  predicate DiffersAt(a: string, b: string, i: nat) {
    && i <= |a| && i < |b| && a[..i] == b[..i]
    && (i < |a| ==> a[i] < b[i])
  }

  lemma StartsAlike(a: string, b: string, i: nat)
    requires DiffersAt(a, b, i)
    ensures i == 0 || (a != [] && a[0] == b[0])
  {
    if i > 0 {
      assert a[..i][0] == b[..i][0];
    }
  }

  lemma {:induction false} LexMeaning(a: string, b: string)
    ensures LexBefore(a, b) <==> exists i: nat :: DiffersAt(a, b, i)
  {
    if b != [] && (a == [] || a[0] != b[0]) {
      assert DiffersAt(a, b, 0) <==> LexBefore(a, b);
      if i: nat :| DiffersAt(a, b, i) {
        StartsAlike(a, b, i);
      }
    } else if b != [] {
      LexMeaning(a[1..], b[1..]);
      if i: nat :| DiffersAt(a[1..], b[1..], i) {
        assert a[..i + 1] == [a[0]] + a[1..][..i] && b[..i + 1] == [b[0]] + b[1..][..i];
        assert DiffersAt(a, b, i + 1);
      }
      if i: nat :| DiffersAt(a, b, i) {
        assert a[1..][..i - 1] == a[..i][1..] && b[1..][..i - 1] == b[..i][1..];
        assert DiffersAt(a[1..], b[1..], i - 1);
      }
    }
  }

  // ----- decimal texts

  function Digit(d: nat): char
    requires d < 10
  {
    ('0' as int + d) as char
  }

  /** The number in decimal, without leading zeros. */
  function Decimal(n: nat): (r: string)
    ensures r != []
  {
    if n < 10 then [Digit(n)] else Decimal(n / 10) + [Digit(n % 10)]
  }

  predicate AllDigits(s: string) {
    forall i | 0 <= i < |s| :: IsDigit(s[i])
  }

  predicate IsDecimal(s: string) {
    s != [] && AllDigits(s) && (s[0] == '0' ==> |s| == 1)
  }

  function ValueOf(s: string): nat
    requires AllDigits(s)
  {
    if s == [] then 0 else 10 * ValueOf(s[..|s| - 1]) + (s[|s| - 1] as int - '0' as int)
  }

  function Power(n: nat): (r: nat)
    ensures r >= 1
  {
    if n == 0 then 1 else 10 * Power(n - 1)
  }

  lemma {:induction false} DecimalOfValue(s: string)
    requires IsDecimal(s)
    ensures Decimal(ValueOf(s)) == s
  {
    var front, d := s[..|s| - 1], s[|s| - 1] as int - '0' as int;
    assert IsDigit(s[|s| - 1]) && Digit(d) == s[|s| - 1];
    assert s == front + [s[|s| - 1]];
    if front == [] {
      assert ValueOf(front) == 0;
    } else {
      DecimalOfValue(front);
      Bounds(front);
      assert ValueOf(front) >= 1 by { assert front[0] == s[0]; }
    }
  }

  lemma {:induction false} ValueOfDecimal(n: nat)
    ensures IsDecimal(Decimal(n)) && ValueOf(Decimal(n)) == n
    ensures n > 0 ==> Decimal(n)[0] != '0'
  {
    var s := Decimal(n);
    if n < 10 {
      assert s[..0] == [];
    } else {
      ValueOfDecimal(n / 10);
      assert s[..|s| - 1] == Decimal(n / 10);
      assert s[0] == Decimal(n / 10)[0];
    }
  }

  lemma {:induction false} Bounds(s: string)
    requires AllDigits(s)
    ensures ValueOf(s) < Power(|s|)
    ensures s != [] && s[0] != '0' ==> Power(|s| - 1) <= ValueOf(s)
  {
    if s != [] {
      var front := s[..|s| - 1];
      Bounds(front);
      assert IsDigit(s[|s| - 1]);
      if front == [] {
        assert ValueOf(front) == 0;
      } else {
        assert front[0] == s[0];
      }
    }
  }

  lemma {:induction false} LexOfLast(a: string, b: string, c: char, d: char)
    requires |a| == |b|
    ensures LexBefore(a + [c], b + [d]) <==> LexBefore(a, b) || (a == b && c < d)
  {
    if a != [] {
      assert (a + [c])[1..] == a[1..] + [c] && (b + [d])[1..] == b[1..] + [d];
      LexOfLast(a[1..], b[1..], c, d);
      assert a == [a[0]] + a[1..] && b == [b[0]] + b[1..];
    } else {
      assert [c][1..] == [] && [d][1..] == [];
    }
  }

  lemma {:induction false} LexIsNumeric(a: string, b: string)
    requires |a| == |b| && AllDigits(a) && AllDigits(b)
    ensures LexBefore(a, b) <==> ValueOf(a) < ValueOf(b)
    ensures a == b <==> ValueOf(a) == ValueOf(b)
  {
    if a != [] {
      var n := |a| - 1;
      LexIsNumeric(a[..n], b[..n]);
      LexOfLast(a[..n], b[..n], a[n], b[n]);
      assert a == a[..n] + [a[n]] && b == b[..n] + [b[n]];
      assert IsDigit(a[n]) && IsDigit(b[n]);
    }
  }

  const LARGEST := 4_294_967_294

  lemma TwoMoreDigits(n: nat, c: nat, d: nat)
    requires n > 0 && c < 10 && d < 10
    ensures Decimal(100 * n + 10 * c + d) == Decimal(n) + [Digit(c), Digit(d)]
  {
    assert Decimal(100 * n + 10 * c + d) == Decimal(10 * n + c) + [Digit(d)];
    assert Decimal(10 * n + c) == Decimal(n) + [Digit(c)];
  }

  lemma LargestDecimal()
    ensures Decimal(LARGEST) == LARGEST_INDEX
  {
    hide Decimal;
    assert Decimal(42) == "42" by { FirstDigits(); }
    TwoMoreDigits(42, 9, 4);
    TwoMoreDigits(4_294, 9, 6);
    TwoMoreDigits(429_496, 7, 2);
    TwoMoreDigits(42_949_672, 9, 4);
    assert LARGEST_INDEX == "42" + "94" + "96" + "72" + "94";
  }

  lemma FirstDigits()
    ensures Decimal(42) == "42"
  {
    assert Decimal(4) == "4";
  }

  lemma LargestIndex()
    ensures AllDigits(LARGEST_INDEX) && ValueOf(LARGEST_INDEX) == LARGEST
  {
    hide ValueOf, Decimal;
    LargestDecimal();
    ValueOfDecimal(LARGEST);
  }

  lemma TenthPower()
    ensures Power(9) == 1_000_000_000 && Power(10) == 10_000_000_000
  {
  }

  lemma {:induction false} PowerGrows(m: nat, n: nat)
    requires m <= n
    ensures Power(m) <= Power(n)
  {
    if m < n {
      PowerGrows(m, n - 1);
    }
  }

  lemma IndexValue(s: string)
    requires IsDecimal(s)
    ensures IsArrayIndex(s) <==> ValueOf(s) <= LARGEST
  {
    hide LexBefore, ValueOf, Power;
    LargestIndex();
    TenthPower();
    Bounds(s);
    if |s| < 10 {
      PowerGrows(|s|, 9);
    } else if |s| == 10 {
      LexIsNumeric(LARGEST_INDEX, s);
    } else {
      PowerGrows(10, |s| - 1);
    }
  }

  /** The keys that come first are the decimal texts of the numbers up to 2^32 - 2. */
  lemma IndicesAreDecimals(key: string)
    ensures IsArrayIndex(key) <==> exists n: nat :: n <= LARGEST && key == Decimal(n)
  {
    hide LexBefore, Power, Decimal;
    if IsArrayIndex(key) {
      assert IsDecimal(key);
      IndexValue(key);
      DecimalOfValue(key);
      assert ValueOf(key) <= LARGEST && key == Decimal(ValueOf(key));
    }
    if n: nat :| n <= LARGEST && key == Decimal(n) {
      ValueOfDecimal(n);
      IndexValue(key);
    }
  }

  lemma DecimalsByLength(a: string, b: string)
    requires IsDecimal(a) && IsDecimal(b) && |a| < |b|
    ensures ValueOf(a) < ValueOf(b)
  {
    hide ValueOf, Power;
    Bounds(a);
    Bounds(b);
    PowerGrows(|a|, |b| - 1);
  }

  /** Indices come in the order of their numbers, before all other keys; these come in lexicographic order. */
  lemma KeyOrderMeaning(a: string, b: string, m: nat, n: nat)
    ensures m <= LARGEST && n <= LARGEST ==> (KeyBefore(Decimal(m), Decimal(n)) <==> m < n)
    ensures m <= LARGEST && !IsArrayIndex(a) ==> KeyBefore(Decimal(m), a) && !KeyBefore(a, Decimal(m))
    ensures !IsArrayIndex(a) && !IsArrayIndex(b) ==>
      (KeyBefore(a, b) <==> exists i: nat :: DiffersAt(a, b, i))
  {
    hide IsArrayIndex, LexBefore, ValueOf, Decimal, DiffersAt;
    var s, t := Decimal(m), Decimal(n);
    ValueOfDecimal(m);
    ValueOfDecimal(n);
    IndexValue(s);
    IndexValue(t);
    LexMeaning(a, b);
    if |s| == |t| {
      LexIsNumeric(s, t);
    } else if |s| < |t| {
      DecimalsByLength(s, t);
    } else {
      DecimalsByLength(t, s);
    }
  }
}
