/**
 Session identifiers: 26 Crockford base-32 characters for a millisecond timestamp and 80 random
 bits.
 */
module SessionIds {
  import opened IntFacts
  import opened Sequences

  const ALPHABET := "0123456789ABCDEFGHJKMNPQRSTVWXYZ"
  const RANDOM_SPACE: nat := 0x1_0000_0000_0000_0000_0000
  const TIME_SPACE: nat := 0x4_0000_0000_0000

  /** Ten characters for the timestamp and sixteen for the random part. */
  const TIME_DIGITS: nat := 10
  const RANDOM_DIGITS: nat := 16
  const DIGITS: nat := TIME_DIGITS + RANDOM_DIGITS

  function Base32Char(c: nat): char
  {
    ALPHABET[c % 32]
  }

  /** The character class of the validity pattern. */
  predicate InClass(c: char) {
    || '0' <= c <= '9' || 'A' <= c <= 'H' || c == 'J' || c == 'K' || c == 'M' || c == 'N'
    || 'P' <= c <= 'T' || 'V' <= c <= 'Z'
  }

  /** The pattern's end anchor also matches before one final line feed. */
  predicate IsValidUlid(s: string) {
    && (|s| == DIGITS || (|s| == DIGITS + 1 && s[DIGITS] == '\n'))
    && forall i :: 0 <= i < DIGITS ==> InClass(s[i])
  }

  /** The `k` lowest base-32 digits of a value, most significant first. */
  function Encode(value: nat, k: nat): (s: string)
    ensures |s| == k
  {
    if k == 0 then "" else Encode(value / 32, k - 1) + [Base32Char(value % 32)]
  }

  function Reversed(s: string): (r: string)
    ensures |r| == |s| && forall i :: 0 <= i < |s| ==> r[i] == s[|s| - 1 - i]
  {
    seq(|s|, i requires 0 <= i < |s| => s[|s| - 1 - i])
  }

  /** Appends the lowest digit and shifts, `k` times, then reverses. */
  method EncodeDigits(whole: nat, k: nat) returns (id: string)
    ensures id == Encode(whole, k)
  {
    var result: string := "";
    var value := whole;
    var n := 0;
    while n < k
      invariant 0 <= n <= k && |result| == n && value >= 0
      invariant Encode(whole, k) == Encode(value, k - n) + Reversed(result)
    {
      ghost var before := result;
      result := result + [Base32Char(value % 32)];
      assert Reversed(result) == [Base32Char(value % 32)] + Reversed(before);
      value := value / 32;
      n := n + 1;
    }
    id := Reversed(result);
  }

  /** The digit a character stands for. */
  function Digit(c: char): (d: nat)
    ensures d < 32
  {
    var n := c as int;
    if '0' <= c <= '9' then n - 48
    else if 'A' <= c <= 'H' then n - 55
    else if c == 'J' || c == 'K' then n - 56
    else if c == 'M' || c == 'N' then n - 57
    else if 'P' <= c <= 'T' then n - 58
    else if 'V' <= c <= 'Z' then n - 59
    else 0
  }

  lemma DigitOfChar(c: nat)
    requires c < 32
    ensures Digit(Base32Char(c)) == c && InClass(Base32Char(c))
  {
    assert c % 32 == c;
  }

  lemma {:induction false} DigitsAreInClass(value: nat, k: nat)
    ensures forall i :: 0 <= i < k ==> InClass(Encode(value, k)[i])
  {
    if k > 0 {
      DigitsAreInClass(value / 32, k - 1);
      DigitOfChar(value % 32);
    }
  }

  lemma EncodedIsValid(value: nat)
    ensures IsValidUlid(Encode(value, DIGITS))
  {
    DigitsAreInClass(value, DIGITS);
  }

  method GenerateUlid(timestamp: nat, random: nat) returns (id: string)
    requires random < RANDOM_SPACE
    ensures id == Encode(timestamp * RANDOM_SPACE + random, DIGITS)
    ensures IsValidUlid(id)
  {
    ghost var packed := timestamp * RANDOM_SPACE + random;
    id := EncodeDigits(timestamp * RANDOM_SPACE + random, DIGITS);
    EncodedIsValid(packed);
  }

  // ---- Decoding ----------------------------------------------------------------------------

  function Decode(s: string): nat {
    if s == "" then 0 else Decode(Init(s)) * 32 + Digit(Last(s))
  }

  function Power32(k: nat): (p: nat)
    ensures p > 0
  {
    if k == 0 then 1 else Power32(k - 1) * 32
  }

  lemma ModuloSplits(v: nat, p: nat)
    requires p > 0
    ensures v % (p * 32) == (v / 32 % p) * 32 + v % 32
  {
    var q, d := v / 32, v % 32;
    var a, b := q / p, q % p;
    assert v == (a * p + b) * 32 + d == a * (p * 32) + (b * 32 + d);
    assert 0 <= b * 32 + d < p * 32 by {
      assert b <= p - 1;
      assert b * 32 <= (p - 1) * 32;
    }
    DivisionIs(v, p * 32, a, b * 32 + d);
  }

  /** Decoding the k digits of a value gives the value modulo 32 to the k. */
  lemma {:induction false} DecodeEncode(value: nat, k: nat)
    ensures Decode(Encode(value, k)) == value % Power32(k)
  {
    if k > 0 {
      DecodeEncode(value / 32, k - 1);
      DigitOfChar(value % 32);
      var init, last := Encode(value / 32, k - 1), Base32Char(value % 32);
      assert Init(init + [last]) == init && Last(init + [last]) == last;
      ModuloSplits(value, Power32(k - 1));
    }
  }

  lemma UlidCapacity()
    ensures Power32(DIGITS) == TIME_SPACE * RANDOM_SPACE
  {
    assert Power32(13) == 0x2_0000_0000_0000_0000;
    assert Power32(26) == 0x2_0000_0000_0000_0000 * 0x2_0000_0000_0000_0000 by {
      assert Power32(26) == Power32(13) * 0x2_0000_0000_0000_0000;
    }
  }

  lemma Repack(a: nat, t: nat, r: nat, n: nat, m: nat)
    requires t < n && r < m
    ensures (a * n + t) * m + r == a * (n * m) + (t * m + r)
    ensures t * m + r < n * m
  {
    assert (a * n + t) * m == a * (n * m) + t * m;
    assert t * m + m == (t + 1) * m;
    ProductAtMost(t + 1, n, m);
  }

  /** What is kept of a packed pair modulo `space` is the time modulo n and all random bits. */
  lemma KeptPair(packed: nat, t: nat, r: nat, n: nat, m: nat, space: nat)
    requires r < m && n > 0 && packed == t * m + r && space == n * m
    ensures space > 0 && packed % space == (t % n) * m + r
  {
    var a, b := t / n, t % n;
    var low := b * m + r;
    assert packed == a * space + low && low < space by {
      assert t == a * n + b;
      Repack(a, b, r, n, m);
    }
    DivisionIs(packed, space, a, low);
  }

  lemma SmallRemainder(t: nat, n: nat)
    requires n > 0
    ensures t % n == t <==> t < n
  {}

  /** What a reader sees of it. */
  lemma KeptPairReads(v: nat, packed: nat, t: nat, r: nat, n: nat, m: nat, space: nat)
    requires r < m && n > 0 && packed == t * m + r && space == n * m
    requires space > 0 && v == packed % space
    ensures v % m == r && (v / m == t <==> t < n)
  {
    KeptPair(packed, t, r, n, m, space);
    DivisionIs(v, m, t % n, r);
    SmallRemainder(t, n);
  }

  lemma PackedPairDecodes(id: string, packed: nat, t: nat, r: nat, n: nat, m: nat, k: nat)
    requires r < m && n > 0 && packed == t * m + r && Power32(k) == n * m && id == Encode(packed, k)
    ensures Decode(id) % m == r && (Decode(id) / m == t <==> t < n)
  {
    assert Decode(id) == packed % Power32(k) by {
      DecodeEncode(packed, k);
    }
    assert Decode(id) % m == r && (Decode(id) / m == t <==> t < n) by {
      KeptPairReads(Decode(id), packed, t, r, n, m, Power32(k));
    }
  }

  /** An identifier decodes to its timestamp and random part exactly when the timestamp is below
      2 to the 50, which is more than the 48 bits of the format. */
  lemma UlidRoundTripExactly(timestamp: nat, random: nat, id: string)
    requires random < RANDOM_SPACE && id == Encode(timestamp * RANDOM_SPACE + random, DIGITS)
    ensures Decode(id) % RANDOM_SPACE == random
    ensures Decode(id) / RANDOM_SPACE == timestamp <==> timestamp < TIME_SPACE
  {
    UlidCapacity();
    PackedPairDecodes(id, timestamp * RANDOM_SPACE + random, timestamp, random, TIME_SPACE, RANDOM_SPACE, DIGITS);
  }

  // ---- Validity ----------------------------------------------------------------------------

  lemma LowDigitsExactly(c: char)
    ensures '0' <= c <= '4' <==> c in "01234"
    ensures '0' <= c <= '4' ==> Base32Char(Digit(c)) == c
  {
    if '0' <= c <= '4' {
      assert "01234"[Digit(c)] == c;
    }
  }

  lemma HighDigitsExactly(c: char)
    ensures '5' <= c <= '9' <==> c in "56789"
    ensures '5' <= c <= '9' ==> Base32Char(Digit(c)) == c
  {
    if '5' <= c <= '9' {
      assert "56789"[Digit(c) - 5] == c;
    }
  }

  lemma FirstLettersExactly(c: char)
    ensures 'A' <= c <= 'H' <==> c in "ABCDEFGH"
    ensures 'A' <= c <= 'H' ==> Base32Char(Digit(c)) == c
  {
    if 'A' <= c <= 'H' {
      assert "ABCDEFGH"[Digit(c) - 10] == c;
    }
  }

  lemma MiddleLettersExactly(c: char)
    ensures c == 'J' || c == 'K' || c == 'M' || c == 'N' <==> c in "JKMN"
    ensures c == 'J' || c == 'K' || c == 'M' || c == 'N' ==> Base32Char(Digit(c)) == c
  {
    if c == 'J' || c == 'K' || c == 'M' || c == 'N' {
      assert "JKMN"[Digit(c) - 18] == c;
    }
  }

  lemma LaterLettersExactly(c: char)
    ensures 'P' <= c <= 'T' <==> c in "PQRST"
    ensures 'P' <= c <= 'T' ==> Base32Char(Digit(c)) == c
  {
    if 'P' <= c <= 'T' {
      assert "PQRST"[Digit(c) - 22] == c;
    }
  }

  lemma LastLettersExactly(c: char)
    ensures 'V' <= c <= 'Z' <==> c in "VWXYZ"
    ensures 'V' <= c <= 'Z' ==> Base32Char(Digit(c)) == c
  {
    if 'V' <= c <= 'Z' {
      assert "VWXYZ"[Digit(c) - 27] == c;
    }
  }

  /** The class is the 32 characters of the alphabet, and each stands for its own digit. */
  lemma InClassExactly(c: char)
    ensures InClass(c) <==>
              c in "01234" || c in "56789" || c in "ABCDEFGH" || c in "JKMN" || c in "PQRST" || c in "VWXYZ"
    ensures InClass(c) ==> Base32Char(Digit(c)) == c
  {
    LowDigitsExactly(c);
    HighDigitsExactly(c);
    FirstLettersExactly(c);
    MiddleLettersExactly(c);
    LaterLettersExactly(c);
    LastLettersExactly(c);
  }

  lemma DecodeSnoc(init: string, last: char)
    ensures var v := Decode(init + [last]);
            v / 32 == Decode(init) && v % 32 == Digit(last)
  {
    assert Init(init + [last]) == init && Last(init + [last]) == last;
    DivisionIs(Decode(init + [last]), 32, Decode(init), Digit(last));
  }

  /** Encoding gives back every string over the alphabet. */
  lemma {:induction false} EncodeDecode(s: string)
    requires forall i :: 0 <= i < |s| ==> InClass(s[i])
    ensures Encode(Decode(s), |s|) == s
  {
    if s != "" {
      var init, last := Init(s), Last(s);
      assert s == init + [last];
      EncodeDecode(init);
      InClassExactly(last);
      DecodeSnoc(init, last);
    }
  }

  lemma {:induction false} DecodeIsBounded(s: string)
    ensures Decode(s) < Power32(|s|)
  {
    if s != "" {
      DecodeIsBounded(Init(s));
    }
  }

  /** The identifier of a timestamp and a random part, with or without a final line feed. */
  ghost predicate IsIdOf(s: string, t: nat, r: nat) {
    var id := Encode(t * 0x1_0000_0000_0000_0000_0000 + r, 26);
    s == id || s == id + "\n"
  }

  lemma PairOf(v: nat, n: nat, m: nat) returns (t: nat, r: nat)
    requires m > 0 && v < n * m
    ensures t < n && r < m && t * m + r == v
  {
    t, r := v / m, v % m;
    if t >= n {
      ProductAtMost(n, t, m);
    }
  }

  lemma IdOfPair(id: string, n: nat, m: nat) returns (t: nat, r: nat)
    requires m > 0 && Power32(|id|) == n * m && forall i :: 0 <= i < |id| ==> InClass(id[i])
    ensures t < n && r < m && id == Encode(t * m + r, |id|)
  {
    var v := Decode(id);
    EncodeDecode(id);
    DecodeIsBounded(id);
    t, r := PairOf(v, n, m);
  }

  lemma ValidIsEncoding(s: string) returns (t: nat, r: nat)
    requires IsValidUlid(s)
    ensures t < 0x4_0000_0000_0000 && r < 0x1_0000_0000_0000_0000_0000 && IsIdOf(s, t, r)
  {
    var id := s[..26];
    UlidCapacity();
    t, r := IdOfPair(id, TIME_SPACE, RANDOM_SPACE);
    assert s == id || s == id + "\n";
  }

  lemma EncodingIsValid(s: string, t: nat, r: nat)
    requires IsIdOf(s, t, r)
    ensures IsValidUlid(s)
  {
    EncodedIsValid(t * RANDOM_SPACE + r);
  }

  /** The pattern accepts the identifiers of all pairs of a timestamp of 50 bits and 80 random bits, with
      or without a final line feed, and nothing else. */
  lemma ValidExactly(s: string)
    ensures IsValidUlid(s) <==>
              exists t: nat, r: nat ::
                t < 0x4_0000_0000_0000 && r < 0x1_0000_0000_0000_0000_0000 && IsIdOf(s, t, r)
  {
    if IsValidUlid(s) {
      var t, r := ValidIsEncoding(s);
    }
    if t: nat, r: nat :| IsIdOf(s, t, r) {
      EncodingIsValid(s, t, r);
    }
  }

  // ---- Sorting -----------------------------------------------------------------------------

  /** Lexicographic comparison of strings by character code. */
  predicate Before(s: string, t: string) {
    if t == "" then false
    else if s == "" then true
    else s[0] < t[0] || (s[0] == t[0] && Before(s[1..], t[1..]))
  }

  lemma {:induction false} BeforeBySuffix(s: string, t: string, x: char, y: char)
    requires |s| == |t|
    ensures Before(s + [x], t + [y]) <==> Before(s, t) || (s == t && x < y)
    decreases |s|
  {
    if s == "" {
      assert (s + [x])[1..] == "" && (t + [y])[1..] == "";
    } else {
      BeforeBySuffix(s[1..], t[1..], x, y);
      assert (s + [x])[1..] == s[1..] + [x] && (t + [y])[1..] == t[1..] + [y];
      assert s == t <==> s[0] == t[0] && s[1..] == t[1..] by {
        assert s == [s[0]] + s[1..] && t == [t[0]] + t[1..];
      }
    }
  }

  lemma CharsInOrder(c: nat, d: nat)
    requires c < 32 && d < 32
    ensures Base32Char(c) < Base32Char(d) <==> c < d
  {
    DigitOfChar(c);
    DigitOfChar(d);
  }

  lemma {:induction false} SameDigits(a: nat, b: nat, k: nat)
    requires a % Power32(k) == b % Power32(k)
    ensures Encode(a, k) == Encode(b, k)
    decreases k
  {
    if k > 0 {
      ModuloSplits(a, Power32(k - 1));
      ModuloSplits(b, Power32(k - 1));
      SameDigits(a / 32, b / 32, k - 1);
    }
  }

  lemma EncodeIsInjective(a: nat, b: nat, k: nat)
    ensures Encode(a, k) == Encode(b, k) <==> a % Power32(k) == b % Power32(k)
  {
    DecodeEncode(a, k);
    DecodeEncode(b, k);
    if a % Power32(k) == b % Power32(k) {
      SameDigits(a, b, k);
    }
  }

  /** String order of k-digit encodings is the order of the values they keep. */
  lemma {:induction false} EncodeKeepsOrder(a: nat, b: nat, k: nat)
    ensures Before(Encode(a, k), Encode(b, k)) <==> a % Power32(k) < b % Power32(k)
    decreases k
  {
    if k > 0 {
      var p := Power32(k - 1);
      EncodeKeepsOrder(a / 32, b / 32, k - 1);
      BeforeBySuffix(Encode(a / 32, k - 1), Encode(b / 32, k - 1), Base32Char(a % 32), Base32Char(b % 32));
      CharsInOrder(a % 32, b % 32);
      ModuloSplits(a, p);
      ModuloSplits(b, p);
      EncodeIsInjective(a / 32, b / 32, k - 1);
    }
  }

  lemma SmallValuesSort(a: nat, b: nat, k: nat)
    requires a < Power32(k) && b < Power32(k)
    ensures Before(Encode(a, k), Encode(b, k)) <==> a < b
  {
    EncodeKeepsOrder(a, b, k);
    SmallRemainder(a, Power32(k));
    SmallRemainder(b, Power32(k));
  }

  lemma PackedOrder(t1: nat, r1: nat, t2: nat, r2: nat, m: nat)
    requires r1 < m && r2 < m
    ensures t1 * m + r1 < t2 * m + r2 <==> t1 < t2 || (t1 == t2 && r1 < r2)
  {
    assert (t1 + 1) * m == t1 * m + m && (t2 + 1) * m == t2 * m + m;
    if t1 < t2 {
      ProductAtMost(t1 + 1, t2, m);
    } else if t2 < t1 {
      ProductAtMost(t2 + 1, t1, m);
    }
  }

  /** Identifiers sort as the pairs of timestamp and random part; within one millisecond the order
      is that of the random parts, not of creation. */
  lemma UlidsSortByTimeThenRandom(t1: nat, r1: nat, t2: nat, r2: nat)
    requires t1 < TIME_SPACE && t2 < TIME_SPACE && r1 < RANDOM_SPACE && r2 < RANDOM_SPACE
    ensures Before(Encode(t1 * RANDOM_SPACE + r1, DIGITS), Encode(t2 * RANDOM_SPACE + r2, DIGITS))
       <==> t1 < t2 || (t1 == t2 && r1 < r2)
  {
    UlidCapacity();
    SmallValuesSort(t1 * RANDOM_SPACE + r1, t2 * RANDOM_SPACE + r2, DIGITS);
    PackedOrder(t1, r1, t2, r2, RANDOM_SPACE);
  }
}
