// What the decoders do to a token: check that it is UTF-8, read it as a
// number, and what the encoder does to a number: print it in decimal.
module Text {
  import opened Bytes
  import opened Wrappers

  // ------------------------------------------------------------------ UTF-8

  predicate In(s: bytes, i: nat, lo: byte, hi: byte) {
    i < |s| && lo <= s[i] <= hi
  }

  // Length of the well-formed character at the start of s, 0 when there is
  // none (Unicode 15.0, Table 3-7: overlong forms and surrogates are excluded).
  function CharLen(s: bytes): (n: nat)
    ensures n <= |s|
  {
    if In(s, 0, 0x00, 0x7F) then 1
    else if In(s, 0, 0xC2, 0xDF) && In(s, 1, 0x80, 0xBF) then 2
    else if In(s, 0, 0xE0, 0xE0) && In(s, 1, 0xA0, 0xBF) && In(s, 2, 0x80, 0xBF) then 3
    else if In(s, 0, 0xE1, 0xEC) && In(s, 1, 0x80, 0xBF) && In(s, 2, 0x80, 0xBF) then 3
    else if In(s, 0, 0xED, 0xED) && In(s, 1, 0x80, 0x9F) && In(s, 2, 0x80, 0xBF) then 3
    else if In(s, 0, 0xEE, 0xEF) && In(s, 1, 0x80, 0xBF) && In(s, 2, 0x80, 0xBF) then 3
    else if In(s, 0, 0xF0, 0xF0) && In(s, 1, 0x90, 0xBF) && In(s, 2, 0x80, 0xBF) && In(s, 3, 0x80, 0xBF) then 4
    else if In(s, 0, 0xF1, 0xF3) && In(s, 1, 0x80, 0xBF) && In(s, 2, 0x80, 0xBF) && In(s, 3, 0x80, 0xBF) then 4
    else if In(s, 0, 0xF4, 0xF4) && In(s, 1, 0x80, 0x8F) && In(s, 2, 0x80, 0xBF) && In(s, 3, 0x80, 0xBF) then 4
    else 0
  }

  predicate ValidUtf8(s: bytes)
    decreases |s|
  {
    s == [] || (CharLen(s) > 0 && ValidUtf8(s[CharLen(s)..]))
  }

  lemma CharLenExtends(a: bytes, b: bytes)
    requires CharLen(a) > 0
    ensures CharLen(a + b) == CharLen(a)
  {
  }

  lemma {:induction false} Utf8Concat(a: bytes, b: bytes)
    requires ValidUtf8(a) && ValidUtf8(b)
    ensures ValidUtf8(a + b)
    decreases |a|
  {
    hide CharLen;
    if a == [] {
      assert a + b == b;
    } else {
      var n := CharLen(a);
      CharLenExtends(a, b);
      Utf8Concat(a[n..], b);
      assert (a + b)[n..] == a[n..] + b;
    }
  }

  lemma {:induction false} AsciiIsUtf8(s: bytes)
    requires forall c :: c in s ==> c < 0x80
    ensures ValidUtf8(s)
    decreases |s|
  {
    if s != [] {
      assert s[0] in s;
      assert forall c :: c in s[1..] ==> c in s;
      AsciiIsUtf8(s[1..]);
    }
  }

  // ---------------------------------------------------------------- numbers

  const USIZE_LIMIT: nat := 0x1_0000_0000_0000_0000
  const PLUS: byte := 0x2B

  predicate IsDigit(b: byte) {
    0x30 <= b <= 0x39
  }

  predicate AllDigits(s: bytes) {
    forall i :: 0 <= i < |s| ==> IsDigit(s[i])
  }

  // `{n}` in a format string.
  function Decimal(n: nat): (s: bytes)
    ensures |s| >= 1 && AllDigits(s)
  {
    if n < 10 then [(0x30 + n) as byte] else Decimal(n / 10) + [(0x30 + n % 10) as byte]
  }

  function DigitsValue(s: bytes): nat
    requires AllDigits(s)
  {
    if s == [] then 0 else 10 * DigitsValue(s[..|s| - 1]) + (s[|s| - 1] - 0x30) as nat
  }

  // `str::parse::<usize>`: one optional `+`, then at least one digit; a value
  // that does not fit 64 bits is an error.
  function ParseUsize(s: bytes): (n: Option<nat>)
    ensures n.Some? ==> n.value < USIZE_LIMIT
  {
    var digits := if |s| > 0 && s[0] == PLUS then s[1..] else s;
    if digits == [] || !AllDigits(digits) then None
    else if DigitsValue(digits) >= USIZE_LIMIT then None
    else Some(DigitsValue(digits))
  }

  // `str::parse::<NonZeroUsize>`.
  function ParseNonZero(s: bytes): Option<nat> {
    match ParseUsize(s)
    case None => None
    case Some(n) => if n == 0 then None else Some(n)
  }

  lemma {:induction false} DecimalValue(n: nat)
    ensures DigitsValue(Decimal(n)) == n
  {
    var s := Decimal(n);
    if n >= 10 {
      DecimalValue(n / 10);
      assert s[..|s| - 1] == Decimal(n / 10);
    } else {
      assert s[..0] == [];
    }
  }

  lemma ParseDecimal(n: nat)
    ensures ParseUsize(Decimal(n)) == if n < USIZE_LIMIT then Some(n) else None
  {
    DecimalValue(n);
    assert IsDigit(Decimal(n)[0]);
  }

  lemma DecimalInjective(m: nat, n: nat)
    requires Decimal(m) == Decimal(n)
    ensures m == n
  {
    DecimalValue(m);
    DecimalValue(n);
  }

  // n, divided by ten k times.
  function Shifted(n: nat, k: nat): nat {
    if k == 0 then n else Shifted(n / 10, k - 1)
  }

  // A printed number has no superfluous digit, and the byte with k bytes
  // behind it is the ASCII digit for the k-th decimal place.
  lemma {:induction false} DecimalDigits(n: nat)
    ensures var s := Decimal(n);
            && Shifted(n, |s|) == 0
            && (|s| > 1 ==> Shifted(n, |s| - 1) > 0)
            && forall k: nat :: k < |s| ==> s[|s| - 1 - k] as int == 0x30 + Shifted(n, k) % 10
  {
    var s := Decimal(n);
    if n < 10 {
      assert Shifted(n, 1) == Shifted(0, 0);
    } else {
      DecimalDigits(n / 10);
      forall k: nat | k < |s|
        ensures s[|s| - 1 - k] as int == 0x30 + Shifted(n, k) % 10
      {
        assert k > 0 ==> Shifted(n, k) == Shifted(n / 10, k - 1);
      }
    }
  }

  predicate AllZeros(s: bytes) {
    forall i :: 0 <= i < |s| ==> s[i] == 0x30
  }

  lemma {:induction false} LeadingZeros(zeros: bytes, s: bytes)
    requires AllZeros(zeros) && AllDigits(s)
    ensures AllDigits(zeros + s) && DigitsValue(zeros + s) == DigitsValue(s)
    decreases |zeros| + |s|
  {
    var all := zeros + s;
    if s != [] {
      assert all[..|all| - 1] == zeros + s[..|s| - 1];
      LeadingZeros(zeros, s[..|s| - 1]);
    } else if zeros != [] {
      assert all[..|all| - 1] == zeros[..|zeros| - 1] + [];
      LeadingZeros(zeros[..|zeros| - 1], []);
    }
  }

  // Any digits are zeros in front of the printed number.
  lemma {:induction false} DigitsAreDecimal(s: bytes) returns (zeros: bytes)
    requires s != [] && AllDigits(s)
    ensures AllZeros(zeros) && s == zeros + Decimal(DigitsValue(s))
    decreases |s|
  {
    var front, d := s[..|s| - 1], (s[|s| - 1] - 0x30) as nat;
    assert s == front + [s[|s| - 1]];
    if front == [] {
      zeros := [];
    } else {
      var v := DigitsValue(front);
      zeros := DigitsAreDecimal(front);
      assert (10 * v + d) / 10 == v && (10 * v + d) % 10 == d;
      if v == 0 {
        assert Decimal(0) == [0x30];
        zeros := front;
      }
    }
  }

  // A token is read as a number exactly when it is that number in decimal,
  // with any zeros and at most one plus sign in front, and fits 64 bits.
  lemma ParseUsizeExactly(s: bytes, n: nat)
    ensures ParseUsize(s) == Some(n) <==>
            n < 18446744073709551616 &&
            exists zeros: bytes ::
              AllZeros(zeros) && (s == zeros + Decimal(n) || s == [0x2B] + (zeros + Decimal(n)))
  {
    if ParseUsize(s) == Some(n) {
      var digits := if s[0] == PLUS then s[1..] else s;
      var zeros := DigitsAreDecimal(digits);
      assert s == zeros + Decimal(n) || s == [0x2B] + (zeros + Decimal(n));
    }
    if zeros: bytes :| n < 18446744073709551616 && AllZeros(zeros)
                       && (s == zeros + Decimal(n) || s == [0x2B] + (zeros + Decimal(n))) {
      LeadingZeros(zeros, Decimal(n));
      DecimalValue(n);
      var digits := zeros + Decimal(n);
      assert IsDigit(digits[0]);
      if s != digits {
        assert s[1..] == digits;
      }
    }
  }

  // A printed number never interferes with the separators around it.
  lemma DecimalIsPlain(n: nat)
    ensures SPACE !in Decimal(n)
    ensures CrlfFree(Decimal(n))
    ensures ValidUtf8(Decimal(n))
  {
    var s := Decimal(n);
    forall c | c in s
      ensures c < 0x80 && c != SPACE && c != CR
    {
      var i :| 0 <= i < |s| && s[i] == c;
      assert IsDigit(s[i]);
    }
    AsciiIsUtf8(s);
    forall i | 0 <= i < |s| - 1
      ensures !CrlfAt(s, i)
    {
      assert s[i] in s;
    }
  }
}
