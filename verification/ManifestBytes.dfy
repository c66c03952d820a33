// The byte-level forms of the manifest codec (internal/config/manifest.go):
// big-endian integers, length-prefixed strings and records, byte order.
module ManifestBytes {
  import opened Outcomes

  type byte = b: int | 0 <= b < 256 witness 0
  type Bytes = seq<byte>

  function Ascii(s: string): (r: Bytes)
    ensures |r| == |s|
  {
    seq(|s|, i requires 0 <= i < |s| => (s[i] as int) % 256)
  }

  // ----- UTF-8 (RFC 3629, section 4)

  predicate IsTail(s: Bytes, i: nat) {
    i < |s| && 0x80 <= s[i] < 0xC0
  }

  /** The length of the first encoded character, zero if there is none. */
  function RuneLength(s: Bytes): (n: nat)
    ensures n <= |s| && n <= 4
  {
    if s == [] then 0
    else if s[0] < 0x80 then 1
    else if 0xC2 <= s[0] < 0xE0 && IsTail(s, 1) then 2
    else if 0xE0 <= s[0] < 0xF0 && IsTail(s, 1) && IsTail(s, 2)
      && (s[0] == 0xE0 ==> s[1] >= 0xA0) && (s[0] == 0xED ==> s[1] < 0xA0) then 3
    else if 0xF0 <= s[0] < 0xF5 && IsTail(s, 1) && IsTail(s, 2) && IsTail(s, 3)
      && (s[0] == 0xF0 ==> s[1] >= 0x90) && (s[0] == 0xF4 ==> s[1] < 0x90) then 4
    else 0
  }

  predicate ValidUtf8(s: Bytes)
    decreases |s|
  {
    s == [] || (RuneLength(s) > 0 && ValidUtf8(s[RuneLength(s)..]))
  }

  lemma {:induction false} AsciiIsValid(s: Bytes)
    requires forall i | 0 <= i < |s| :: s[i] < 0x80
    ensures ValidUtf8(s)
    decreases |s|
  {
    if s != [] { AsciiIsValid(s[1..]); }
  }

  // ----- big-endian integers

  function Power(width: nat): (p: nat)
    ensures p >= 1
  {
    if width == 0 then 1 else 256 * Power(width - 1)
  }

  function BigEndian(n: nat, width: nat): (s: Bytes)
    ensures |s| == width
    decreases width
  {
    if width == 0 then [] else BigEndian(n / 256, width - 1) + [n % 256]
  }

  function Value(s: Bytes): nat
    decreases |s|
  {
    if s == [] then 0 else Value(s[..|s| - 1]) * 256 + s[|s| - 1]
  }

  lemma {:induction false} ValueOfBigEndian(n: nat, width: nat)
    requires n < Power(width)
    ensures Value(BigEndian(n, width)) == n
    decreases width
  {
    if width > 0 {
      var s := BigEndian(n, width);
      assert s[..|s| - 1] == BigEndian(n / 256, width - 1);
      ValueOfBigEndian(n / 256, width - 1);
    }
  }

  lemma {:induction false} BigEndianOfValue(s: Bytes)
    ensures Value(s) < Power(|s|) && BigEndian(Value(s), |s|) == s
    decreases |s|
  {
    if s != [] {
      var front, last := s[..|s| - 1], s[|s| - 1];
      BigEndianOfValue(front);
      var n := Value(front);
      assert Value(s) == n * 256 + last;
      assert (n * 256 + last) / 256 == n && (n * 256 + last) % 256 == last;
      assert s == front + [last];
    }
  }

  /** The most significant byte comes first. */
  lemma {:induction false} ValueOfConcat(a: Bytes, b: Bytes)
    ensures Value(a + b) == Value(a) * Power(|b|) + Value(b)
    ensures forall x: byte :: Value([x]) == x
    decreases |b|
  {
    if b == [] {
      assert a + b == a;
    } else {
      var front, p := b[..|b| - 1], Power(|b| - 1);
      ValueOfConcat(a, front);
      assert (a + b)[..|a + b| - 1] == a + front;
      ShiftedValue(Value(a), p, Value(front));
      assert Value(a + b) == Value(a + front) * 256 + b[|b| - 1] && Power(|b|) == 256 * p;
      hide Value, Power;
    }
  }

  lemma ShiftedValue(high: nat, p: nat, low: nat)
    ensures (high * p + low) * 256 == high * (256 * p) + low * 256
  {
    assert high * p * 256 == high * (256 * p);
  }

  lemma Powers()
    ensures Power(1) == 0x100 && Power(2) == 0x1_0000 && Power(4) == 0x1_0000_0000
    ensures Power(8) == 0x1_0000_0000_0000_0000
  {
    assert Power(1) == 256 * Power(0);
    assert Power(2) == 256 * Power(1);
    assert Power(3) == 256 * Power(2);
    assert Power(4) == 256 * Power(3);
    assert Power(5) == 256 * Power(4);
    assert Power(6) == 256 * Power(5);
    assert Power(7) == 256 * Power(6);
  }

  // ----- readers

  datatype Read<+T> = Read(value: T, rest: Bytes)

  function ReadBytes(s: Bytes, n: nat): (r: Option<Read<Bytes>>)
    ensures r.Some? ==> |r.value.value| == n
  {
    if n <= |s| then Some(Read(s[..n], s[n..])) else None
  }

  function ReadInteger(s: Bytes, width: nat): Option<Read<nat>> {
    if width <= |s| then Some(Read(Value(s[..width]), s[width..])) else None
  }

  function LengthPrefixed(s: Bytes): Bytes {
    BigEndian(|s|, 4) + s
  }

  function ReadRecord(s: Bytes): Option<Read<Bytes>> {
    var length :- ReadInteger(s, 4);
    ReadBytes(length.rest, length.value)
  }

  function ReadString(s: Bytes, limit: int): Option<Read<Bytes>> {
    var length :- ReadInteger(s, 4);
    if length.value > limit then None
    else
      var r :- ReadBytes(length.rest, length.value);
      if ValidUtf8(r.value) then Some(r) else None
  }

  lemma ReadBytesBack(s: Bytes, rest: Bytes)
    ensures ReadBytes(s + rest, |s|) == Some(Read(s, rest))
  {
  }

  lemma ReadIntegerBack(n: nat, width: nat, rest: Bytes)
    requires n < Power(width)
    ensures ReadInteger(BigEndian(n, width) + rest, width) == Some(Read(n, rest))
  {
    ValueOfBigEndian(n, width);
    assert (BigEndian(n, width) + rest)[..width] == BigEndian(n, width);
  }

  lemma LengthPrefixedThen(s: Bytes, rest: Bytes)
    ensures LengthPrefixed(s) + rest == BigEndian(|s|, 4) + (s + rest)
  {
    hide BigEndian;
  }

  lemma ReadRecordBack(s: Bytes, rest: Bytes)
    requires |s| < Power(4)
    ensures ReadRecord(LengthPrefixed(s) + rest) == Some(Read(s, rest))
  {
    hide BigEndian, Power, ReadInteger, ReadBytes, LengthPrefixed;
    LengthPrefixedThen(s, rest);
    ReadIntegerBack(|s|, 4, s + rest);
    ReadBytesBack(s, rest);
  }

  lemma ReadStringBack(s: Bytes, limit: int, rest: Bytes)
    requires |s| <= limit && |s| < Power(4) && ValidUtf8(s)
    ensures ReadString(LengthPrefixed(s) + rest, limit) == Some(Read(s, rest))
  {
    hide BigEndian, Power, ReadInteger, ReadBytes, LengthPrefixed, ValidUtf8;
    LengthPrefixedThen(s, rest);
    ReadIntegerBack(|s|, 4, s + rest);
    ReadBytesBack(s, rest);
  }

  // ----- byte order

  /** Negative, zero or positive, like the comparison of byte slices. */
  function Compare(a: Bytes, b: Bytes): (c: int)
    ensures -1 <= c <= 1
    decreases |a|
  {
    if a == [] then (if b == [] then 0 else -1)
    else if b == [] then 1
    else if a[0] != b[0] then (if a[0] < b[0] then -1 else 1)
    else Compare(a[1..], b[1..])
  }

  lemma {:induction false} CompareIsExact(a: Bytes, b: Bytes)
    ensures Compare(a, b) == 0 <==> a == b
    ensures Compare(b, a) == -Compare(a, b)
    decreases |a|
  {
    if a != [] && b != [] {
      CompareIsExact(a[1..], b[1..]);
      assert a == [a[0]] + a[1..] && b == [b[0]] + b[1..];
    }
  }

  lemma {:induction false} CompareIsTransitive(a: Bytes, b: Bytes, c: Bytes)
    requires Compare(a, b) <= 0 && Compare(b, c) <= 0
    ensures Compare(a, c) <= 0
    ensures Compare(a, b) < 0 || Compare(b, c) < 0 ==> Compare(a, c) < 0
    decreases |a|
  {
    if a != [] && b != [] && c != [] && a[0] == b[0] && b[0] == c[0] {
      CompareIsTransitive(a[1..], b[1..], c[1..]);
    }
  }

  /** Lexicographic order: at the first difference the smaller byte comes first, and an end before any byte. */
  ghost predicate Precedes(a: Bytes, b: Bytes) {
    exists k: nat | k <= |a| && k < |b| :: a[..k] == b[..k] && (k == |a| || a[k] < b[k])
  }

  lemma {:induction false} CompareIsLexicographic(a: Bytes, b: Bytes)
    ensures Compare(a, b) < 0 <==> Precedes(a, b)
    decreases |a|
  {
    if a == [] {
      assert b != [] ==> a[..0] == b[..0];
    } else if b != [] {
      if a[0] != b[0] {
        assert a[..0] == b[..0];
        forall k: nat | 0 < k <= |a| && k < |b| ensures a[..k] != b[..k] {
          assert a[..k][0] != b[..k][0];
        }
      } else {
        CompareIsLexicographic(a[1..], b[1..]);
        PrecedesLater(a, b);
      }
    }
  }

  lemma PrecedesLater(a: Bytes, b: Bytes)
    requires a != [] && b != [] && a[0] == b[0]
    ensures Precedes(a, b) <==> Precedes(a[1..], b[1..])
  {
    if Precedes(a, b) {
      var k: nat :| k <= |a| && k < |b| && a[..k] == b[..k] && (k == |a| || a[k] < b[k]);
      assert a[1..][..k - 1] == a[..k][1..] && b[1..][..k - 1] == b[..k][1..];
    }
    if Precedes(a[1..], b[1..]) {
      var c, d := a[1..], b[1..];
      var k: nat :| k <= |c| && k < |d| && c[..k] == d[..k] && (k == |c| || c[k] < d[k]);
      assert a[..k + 1] == [a[0]] + c[..k] && b[..k + 1] == [b[0]] + d[..k];
    }
  }

  /** Every two strings are ordered in exactly one way, and the order is transitive. */
  lemma {:induction false} PrecedesIsTotal(a: Bytes, b: Bytes)
    ensures a != b ==> (Precedes(a, b) <==> !Precedes(b, a))
    ensures !Precedes(a, a)
  {
    CompareIsExact(a, b);
    CompareIsExact(a, a);
    CompareIsLexicographic(a, b);
    CompareIsLexicographic(b, a);
    CompareIsLexicographic(a, a);
  }
}
