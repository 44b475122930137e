/** UTF-8 of text without surrogates, widths and ranges as in section 3 of RFC 3629, and
    decoding that ignores errors. */
module Utf8 {
  type Scalar = c: int | 0 <= c < 0xD800 || 0xE000 <= c < 0x11_0000
  type Text = seq<Scalar>
  type Byte = b: int | 0 <= b < 0x100

  function Width(c: Scalar): (n: nat)
    ensures 1 <= n <= 4
  {
    if c < 0x80 then 1 else if c < 0x800 then 2 else if c < 0x1_0000 then 3 else 4
  }

  function EncodeOne(c: Scalar): (bytes: seq<Byte>)
    ensures |bytes| == Width(c)
  {
    if c < 0x80 then [c]
    else if c < 0x800 then [0xC0 + c / 64, 0x80 + c % 64]
    else if c < 0x1_0000 then [0xE0 + c / 64 / 64, 0x80 + c / 64 % 64, 0x80 + c % 64]
    else [0xF0 + c / 64 / 64 / 64, 0x80 + c / 64 / 64 % 64, 0x80 + c / 64 % 64, 0x80 + c % 64]
  }

  function Encode(s: Text): seq<Byte> {
    if s == [] then [] else EncodeOne(s[0]) + Encode(s[1..])
  }

  function Size(s: Text): nat {
    |Encode(s)|
  }

  datatype First = Character(c: Scalar, width: nat) | Malformed

  predicate IsTail(b: Byte) {
    0x80 <= b < 0xC0
  }

  /** The character at the front of a byte string: a lead byte, all its tail bytes, a value
      that needs this width and is no surrogate. */
  function DecodeFirst(bytes: seq<Byte>): (r: First)
    requires bytes != []
    ensures r.Character? ==> 1 <= r.width <= |bytes|
  {
    var b := bytes[0];
    if b < 0x80 then Character(b, 1)
    else if 0xC0 <= b < 0xE0 && |bytes| >= 2 && IsTail(bytes[1]) then
      WellFormed(SixMoreBits(b % 32, bytes[1]), 2)
    else if 0xE0 <= b < 0xF0 && |bytes| >= 3 && IsTail(bytes[1]) && IsTail(bytes[2]) then
      WellFormed(SixMoreBits(SixMoreBits(b % 16, bytes[1]), bytes[2]), 3)
    else if 0xF0 <= b < 0xF8 && |bytes| >= 4 && IsTail(bytes[1]) && IsTail(bytes[2]) && IsTail(bytes[3]) then
      WellFormed(SixMoreBits(SixMoreBits(SixMoreBits(b % 8, bytes[1]), bytes[2]), bytes[3]), 4)
    else Malformed
  }

  /** Six more bits at the low end. */
  function SixMoreBits(high: nat, tail: Byte): nat {
    64 * high + tail % 64
  }

  function WellFormed(c: nat, width: nat): (r: First)
    ensures r.Character? ==> r.width == width
  {
    if c < 0xD800 || 0xE000 <= c < 0x11_0000 then
      if Width(c) == width then Character(c, width) else Malformed
    else Malformed
  }

  /** `bytes.decode('utf-8', errors='ignore')`.  Dropping one byte of a malformed sequence at a
      time gives the same text as dropping all of it: what is left of it are tail bytes,
      which begin no character. */
  function DecodeIgnoring(bytes: seq<Byte>): Text
    decreases |bytes|
  {
    if bytes == [] then []
    else
      var first := DecodeFirst(bytes);
      if first.Character? then [first.c] + DecodeIgnoring(bytes[first.width..])
      else DecodeIgnoring(bytes[1..])
  }

  lemma SplitBits(c: nat, tail: Byte)
    requires tail == 0x80 + c % 64
    ensures SixMoreBits(c / 64, tail) == c
  {
  }

  lemma FirstOfEncoded(c: Scalar, rest: seq<Byte>)
    ensures DecodeFirst(EncodeOne(c) + rest) == Character(c, Width(c))
  {
    var one := EncodeOne(c);
    var bytes := one + rest;
    assert forall i :: 0 <= i < |one| ==> bytes[i] == one[i];
    if Width(c) > 1 {
      SplitBits(c, one[|one| - 1]);
    }
    if Width(c) > 2 {
      SplitBits(c / 64, one[|one| - 2]);
    }
    if Width(c) > 3 {
      SplitBits(c / 64 / 64, one[1]);
    }
    LeadBits(c);
  }

  lemma LeadBits(c: Scalar)
    ensures Width(c) == 2 ==> EncodeOne(c)[0] % 32 == c / 64
    ensures Width(c) == 3 ==> EncodeOne(c)[0] % 16 == c / 64 / 64
    ensures Width(c) == 4 ==> EncodeOne(c)[0] % 8 == c / 64 / 64 / 64
  {
  }

  /** For all bytes: a character is read exactly when they start with its encoding. */
  lemma ReadIffEncoded(bytes: seq<Byte>, c: Scalar)
    requires bytes != []
    ensures DecodeFirst(bytes) == Character(c, Width(c)) <==> EncodeOne(c) <= bytes
    ensures DecodeFirst(bytes).Character? ==> DecodeFirst(bytes).width == Width(DecodeFirst(bytes).c)
  {
    var first := DecodeFirst(bytes);
    if EncodeOne(c) <= bytes {
      FirstOfEncoded(c, bytes[Width(c)..]);
      assert EncodeOne(c) + bytes[Width(c)..] == bytes;
    }
    if first.Character? {
      ReadIsEncoded(bytes, first.c);
    }
  }

  lemma ReadIsEncoded(bytes: seq<Byte>, c: Scalar)
    requires bytes != [] && DecodeFirst(bytes).Character? && DecodeFirst(bytes).c == c
    ensures DecodeFirst(bytes).width == Width(c) && EncodeOne(c) <= bytes
  {
    match Width(c) {
      case 1 =>
      case 2 => JoinBits(bytes[0] % 32, bytes[1]);
      case 3 =>
        var high := SixMoreBits(bytes[0] % 16, bytes[1]);
        JoinBits(bytes[0] % 16, bytes[1]);
        JoinBits(high, bytes[2]);
      case _ =>
        var high := SixMoreBits(bytes[0] % 8, bytes[1]);
        JoinBits(bytes[0] % 8, bytes[1]);
        JoinBits(high, bytes[2]);
        JoinBits(SixMoreBits(high, bytes[2]), bytes[3]);
    }
  }

  lemma JoinBits(high: nat, tail: Byte)
    requires IsTail(tail)
    ensures SixMoreBits(high, tail) / 64 == high && 0x80 + SixMoreBits(high, tail) % 64 == tail
  {
  }

  lemma DecodeOneMore(c: Scalar, rest: seq<Byte>)
    ensures DecodeIgnoring(EncodeOne(c) + rest) == [c] + DecodeIgnoring(rest)
  {
    FirstOfEncoded(c, rest);
    assert (EncodeOne(c) + rest)[Width(c)..] == rest;
  }

  /** Decoding undoes encoding. */
  lemma {:induction false} RoundTrip(s: Text)
    ensures DecodeIgnoring(Encode(s)) == s
  {
    if s != [] {
      DecodeOneMore(s[0], Encode(s[1..]));
      RoundTrip(s[1..]);
    }
  }

  lemma {:induction false} EncodeConcat(a: Text, b: Text)
    ensures Encode(a + b) == Encode(a) + Encode(b)
  {
    if a == [] {
      assert a + b == b;
    } else {
      assert (a + b)[1..] == a[1..] + b;
      EncodeConcat(a[1..], b);
    }
  }

  lemma {:induction false} TailsDecodeToNothing(bytes: seq<Byte>)
    requires forall i :: 0 <= i < |bytes| ==> IsTail(bytes[i])
    ensures DecodeIgnoring(bytes) == []
  {
    if bytes != [] {
      TailsDecodeToNothing(bytes[1..]);
    }
  }

  /** The beginning of a character without its end decodes to nothing. */
  lemma TornCharacter(c: Scalar, n: nat)
    requires n < Width(c)
    ensures DecodeIgnoring(EncodeOne(c)[..n]) == []
  {
    if n > 0 {
      var torn := EncodeOne(c)[..n];
      assert forall i :: 1 <= i < n ==> IsTail(EncodeOne(c)[i]);
      assert DecodeFirst(torn) == Malformed;
      TailsDecodeToNothing(torn[1..]);
    }
  }

  /** How many characters fit in n bytes. */
  function Fitting(s: Text, n: nat): (k: nat)
    ensures k <= |s|
  {
    if s == [] || Width(s[0]) > n then 0 else 1 + Fitting(s[1..], n - Width(s[0]))
  }

  /** `Fitting` is the longest prefix of at most n bytes. */
  lemma {:induction false} FittingIsLongest(s: Text, n: nat, k: nat)
    requires k <= |s|
    ensures Size(s[..k]) <= n <==> k <= Fitting(s, n)
  {
    if k > 0 {
      assert s[..k][0] == s[0] && s[..k][1..] == s[1..][..k - 1];
      if Width(s[0]) <= n {
        FittingIsLongest(s[1..], n - Width(s[0]), k - 1);
      }
    }
  }

  /** Cutting the encoding at any byte and ignoring errors leaves the longest prefix of the
      text that fits, never a damaged character. */
  lemma {:induction false} TruncationKeepsWholeCharacters(s: Text, n: nat)
    requires n <= Size(s)
    ensures DecodeIgnoring(Encode(s)[..n]) == s[..Fitting(s, n)]
  {
    if s != [] {
      var w, rest := Width(s[0]), Encode(s[1..]);
      CutOfConcat(EncodeOne(s[0]), rest, n);
      if w <= n {
        DecodeOneMore(s[0], rest[..n - w]);
        TruncationKeepsWholeCharacters(s[1..], n - w);
        PrefixOfCons(s, Fitting(s[1..], n - w));
      } else {
        TornCharacter(s[0], n);
      }
    }
  }

  lemma PrefixOfCons<T>(s: seq<T>, k: nat)
    requires k < |s|
    ensures s[..k + 1] == [s[0]] + s[1..][..k]
  {
  }

  lemma CutOfConcat<T>(a: seq<T>, b: seq<T>, n: nat)
    requires n <= |a| + |b|
    ensures (a + b)[..n] == if n < |a| then a[..n] else a + b[..n - |a|]
  {
  }
}
