/**
 * Password hashing as the account service uses it: `bcrypt.hash(password, 10)`
 * when a password is stored and `bcrypt.compare(password, stored)` at login.
 *
 * The hash is modelled symbolically: a digest is a term that records its cost
 * factor and the password it was computed from, and the only operation that
 * looks inside it is `Matches`. Nothing else in the model reads a digest, and a
 * stored password has type `Digest`, never `string`.
 *
 * bcrypt keys its cipher with at most the first 72 bytes of the UTF-8 encoding
 * of the password, so two passwords that agree on those bytes match the same
 * digest. `Matches` compares exactly those bytes (`Key`).
 */
module Credentials {

  /** The cost factor passed to bcrypt at every call site. */
  const SaltRounds: nat := 10

  /** The number of password bytes bcrypt reads. */
  const KeyLength: nat := 72

  type Byte = b: int | 0 <= b < 256

  /** The UTF-8 encoding of one Unicode scalar value. */
  function Utf8Char(c: char): seq<Byte> {
    var n := c as int;
    var (q1, q2, q3) := (n / 0x40, n / 0x40 / 0x40, n / 0x40 / 0x40 / 0x40);
    if n < 0x80 then [n]
    else if n < 0x800 then [0xC0 + q1, 0x80 + n % 0x40]
    else if n < 0x10000 then [0xE0 + q2, 0x80 + q1 % 0x40, 0x80 + n % 0x40]
    else [0xF0 + q3, 0x80 + q2 % 0x40, 0x80 + q1 % 0x40, 0x80 + n % 0x40]
  }

  /** The UTF-8 encoding of a string. */
  function Utf8(s: string): seq<Byte> {
    if s == [] then [] else Utf8Char(s[0]) + Utf8(s[1..])
  }

  /** The bytes of `password` that bcrypt reads: the first 72 of its encoding. */
  function Key(password: string): (k: seq<Byte>)
    ensures |k| <= KeyLength
    ensures k <= Utf8(password)
    ensures |Utf8(password)| <= KeyLength ==> k == Utf8(password)
  {
    var bs := Utf8(password);
    if |bs| <= KeyLength then bs else bs[..KeyLength]
  }

  datatype Digest = Bcrypt(rounds: nat, source: string)

  /** `bcrypt.compare`: does `password` hash to `h`? */
  predicate Matches(password: string, h: Digest) {
    Key(password) == Key(h.source)
  }

  /**
   * `bcrypt.hash(password, 10)`: the digest matches its own password, and
   * exactly the passwords whose first 72 encoded bytes are the same.
   */
  function Hash(password: string): (h: Digest)
    ensures h.rounds == SaltRounds
    ensures Matches(password, h)
    ensures forall other :: Matches(other, h) <==> Key(other) == Key(password)
  {
    Bcrypt(SaltRounds, password)
  }

  // ---------------------------------------------------------------------
  // The encoding

  /** The length of an encoded character, read from its first byte. */
  function LeadLength(b: Byte): nat {
    if b < 0xC0 then 1 else if b < 0xE0 then 2 else if b < 0xF0 then 3 else 4
  }

  lemma Utf8CharLead(c: char)
    ensures 1 <= |Utf8Char(c)| <= 4
    ensures |Utf8Char(c)| == LeadLength(Utf8Char(c)[0])
  {
  }

  /** The code point an encoded character stands for. */
  function DecodeChar(bs: seq<int>): int
    requires 1 <= |bs| <= 4
  {
    if |bs| == 1 then bs[0]
    else if |bs| == 2 then (bs[0] - 0xC0) * 0x40 + (bs[1] - 0x80)
    else if |bs| == 3 then ((bs[0] - 0xE0) * 0x40 + (bs[1] - 0x80)) * 0x40 + (bs[2] - 0x80)
    else (((bs[0] - 0xF0) * 0x40 + (bs[1] - 0x80)) * 0x40 + (bs[2] - 0x80)) * 0x40 + (bs[3] - 0x80)
  }

  lemma DecodeEncodedChar(c: char)
    ensures 1 <= |Utf8Char(c)| <= 4
    ensures DecodeChar(Utf8Char(c)) == c as int
  {
    var n := c as int;
    var (q1, q2, q3) := (n / 0x40, n / 0x40 / 0x40, n / 0x40 / 0x40 / 0x40);
    assert n == q1 * 0x40 + n % 0x40;
    assert q1 == q2 * 0x40 + q1 % 0x40;
    assert q2 == q3 * 0x40 + q2 % 0x40;
  }

  lemma Utf8CharInjective(c: char, d: char)
    requires Utf8Char(c) == Utf8Char(d)
    ensures c == d
  {
    DecodeEncodedChar(c);
    DecodeEncodedChar(d);
  }

  lemma {:induction false} Utf8Append(a: string, b: string)
    ensures Utf8(a + b) == Utf8(a) + Utf8(b)
    decreases |a|
  {
    if a != [] {
      assert (a + b)[1..] == a[1..] + b;
      Utf8Append(a[1..], b);
    } else {
      assert a + b == b;
    }
  }

  /** Distinct strings have distinct encodings. */
  lemma {:induction false} Utf8Injective(a: string, b: string)
    requires Utf8(a) == Utf8(b)
    ensures a == b
    decreases |a|
  {
    if a != [] && b != [] {
      var ca, cb := Utf8Char(a[0]), Utf8Char(b[0]);
      Utf8CharLead(a[0]);
      Utf8CharLead(b[0]);
      assert ca[0] == Utf8(a)[0] == cb[0];
      assert ca == Utf8(a)[..|ca|] == cb;
      Utf8CharInjective(a[0], b[0]);
      assert Utf8(a[1..]) == Utf8(a)[|ca|..] == Utf8(b[1..]);
      Utf8Injective(a[1..], b[1..]);
      assert a == [a[0]] + a[1..];
      assert b == [b[0]] + b[1..];
    } else if a != [] {
      Utf8CharLead(a[0]);
    } else if b != [] {
      Utf8CharLead(b[0]);
    }
  }

  // ---------------------------------------------------------------------
  // What `bcrypt.compare` accepts

  /** A password shorter than 72 encoded bytes matches its digest and nothing else. */
  lemma ShortPasswordMatchesOnlyItself(password: string, other: string)
    requires |Utf8(password)| < KeyLength
    ensures Matches(other, Hash(password)) <==> other == password
  {
    if Matches(other, Hash(password)) {
      assert Key(other) == Utf8(password);
      assert |Utf8(other)| <= KeyLength;
      Utf8Injective(other, password);
    }
  }

  /** Once a password fills the 72 bytes, anything appended to it matches too. */
  lemma LongPasswordIgnoresTail(password: string, tail: string)
    requires |Utf8(password)| >= KeyLength
    ensures Matches(password + tail, Hash(password))
  {
    Utf8Append(password, tail);
    assert Utf8(password + tail)[..KeyLength] == Utf8(password)[..KeyLength];
  }

  /** `n` copies of the character `c`. */
  function Repeat(c: char, n: nat): (s: string)
    ensures |s| == n && forall k :: 0 <= k < n ==> s[k] == c
  {
    if n == 0 then [] else [c] + Repeat(c, n - 1)
  }

  lemma {:induction false} AsciiRunLength(c: char, n: nat)
    requires c as int < 0x80
    ensures |Utf8(Repeat(c, n))| == n
    decreases n
  {
    if n > 0 {
      assert Repeat(c, n)[1..] == Repeat(c, n - 1);
      AsciiRunLength(c, n - 1);
    }
  }

  /**
   * Two different 73-character passwords that share their first 72 characters
   * match the same digest.
   */
  lemma DistinctPasswordsShareDigest()
    ensures var a := Repeat('a', 72);
      a + "X" != a + "Y" && Matches(a + "Y", Hash(a + "X"))
  {
    var a := Repeat('a', 72);
    AsciiRunLength('a', 72);
    assert (a + "X")[72] == 'X' && (a + "Y")[72] == 'Y';
    LongPasswordIgnoresTail(a, "X");
    LongPasswordIgnoresTail(a, "Y");
  }
}
