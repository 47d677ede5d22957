/** 64-bit FNV-1a over parts framed by the byte 0xff. */
module Fnv {
  import opened Text

  type Byte = b: nat | b < 256

  const OFFSET_BASIS: nat := 0xcbf29ce484222325
  const PRIME: nat := 0x100000001b3
  const MODULUS: nat := 0x1_0000_0000_0000_0000
  const PRIME_INVERSE: nat := 0xce965057aff6957b
  const SEPARATOR: Byte := 0xff

  // ----- exclusive or of natural numbers

  function Xor(a: nat, b: nat): nat
    decreases a + b
  {
    if a == 0 && b == 0 then 0 else 2 * Xor(a / 2, b / 2) + (a % 2 + b % 2) % 2
  }

  lemma XorHalves(a: nat, b: nat)
    ensures Xor(a, b) / 2 == Xor(a / 2, b / 2) && Xor(a, b) % 2 == (a % 2 + b % 2) % 2
  {
  }

  lemma XorZero()
    ensures Xor(0, 0) == 0
  {
  }

  lemma {:induction false} XorInvolution(a: nat, b: nat)
    ensures Xor(Xor(a, b), b) == a
    decreases a + b
  {
    hide Xor;
    XorHalves(a, b);
    XorHalves(Xor(a, b), b);
    if a != 0 || b != 0 {
      XorInvolution(a / 2, b / 2);
    } else {
      XorZero();
    }
  }

  lemma {:induction false} XorCommutes(a: nat, b: nat)
    ensures Xor(a, b) == Xor(b, a)
    decreases a + b
  {
    if a != 0 || b != 0 {
      XorCommutes(a / 2, b / 2);
    }
  }

  function Pow2(k: nat): nat {
    if k == 0 then 1 else 2 * Pow2(k - 1)
  }

  lemma {:induction false} XorBelow(a: nat, b: nat, k: nat)
    requires a < Pow2(k) && b < Pow2(k)
    ensures Xor(a, b) < Pow2(k)
  {
    if k > 0 {
      XorBelow(a / 2, b / 2, k - 1);
    }
  }

  lemma {:induction false} Pow2Sum(a: nat, b: nat)
    ensures Pow2(a + b) == Pow2(a) * Pow2(b)
  {
    if a > 0 {
      Pow2Sum(a - 1, b);
      assert Pow2(a + b) == 2 * Pow2(a - 1 + b);
      assert 2 * (Pow2(a - 1) * Pow2(b)) == (2 * Pow2(a - 1)) * Pow2(b);
    }
  }

  lemma ModulusIsPow2()
    ensures Pow2(64) == MODULUS
  {
    assert Pow2(4) == 16 by { assert Pow2(2) == 4; }
    Pow2Sum(4, 4);
    Pow2Sum(8, 8);
    Pow2Sum(16, 16);
    Pow2Sum(32, 32);
  }

  // ----- one step

  /** One step: mix in a byte, multiply by the prime, keep 64 bits. */
  function Step(h: nat, b: Byte): (r: nat)
    ensures r < MODULUS
  {
    (Xor(h, b) * PRIME) % MODULUS
  }

  /** The state before a step, from the state after it. */
  function StepBack(r: nat, b: Byte): nat {
    Xor((r * PRIME_INVERSE) % MODULUS, b)
  }

  lemma RemoveMultiple(x: nat, k: int, y: int)
    requires x < MODULUS && y == x + MODULUS * k
    ensures y % MODULUS == x
  {
  }

  lemma InverseUndoes(x: nat)
    requires x < MODULUS
    ensures (((x * PRIME) % MODULUS) * PRIME_INVERSE) % MODULUS == x
    ensures (((x * PRIME_INVERSE) % MODULUS) * PRIME) % MODULUS == x
  {
    assert PRIME * PRIME_INVERSE == 1 + MODULUS * 0xce9650590f;
    var q, r := (x * PRIME) / MODULUS, (x * PRIME) % MODULUS;
    assert x * PRIME == MODULUS * q + r;
    RemoveMultiple(x, 0xce9650590f * x - PRIME_INVERSE * q, r * PRIME_INVERSE);
    var q', r' := (x * PRIME_INVERSE) / MODULUS, (x * PRIME_INVERSE) % MODULUS;
    assert x * PRIME_INVERSE == MODULUS * q' + r';
    RemoveMultiple(x, 0xce9650590f * x - PRIME * q', r' * PRIME);
  }

  /** For a fixed byte, a step is a bijection of the 64-bit states. */
  lemma StepIsBijection(h: nat, b: Byte)
    requires h < MODULUS
    ensures StepBack(Step(h, b), b) == h
    ensures StepBack(h, b) < MODULUS && Step(StepBack(h, b), b) == h
  {
    ModulusIsPow2();
    assert b < Pow2(64);
    XorBelow(h, b, 64);
    InverseUndoes(Xor(h, b));
    XorInvolution(h, b);
    var x := (h * PRIME_INVERSE) % MODULUS;
    XorBelow(x, b, 64);
    XorInvolution(x, b);
    InverseUndoes(h);
  }

  /** For a fixed state, a step tells all bytes apart. */
  lemma StepSeparatesBytes(h: nat, b: Byte, c: Byte)
    requires h < MODULUS && Step(h, b) == Step(h, c)
    ensures b == c
  {
    ModulusIsPow2();
    XorBelow(h, b, 64);
    XorBelow(h, c, 64);
    InverseUndoes(Xor(h, b));
    InverseUndoes(Xor(h, c));
    XorCommutes(h, b);
    XorCommutes(h, c);
    XorInvolution(b, h);
    XorInvolution(c, h);
  }

  // ----- streams of bytes

  function HashFrom(h: nat, bytes: seq<Byte>): nat {
    if bytes == [] then h else Step(HashFrom(h, bytes[..|bytes| - 1]), bytes[|bytes| - 1])
  }

  lemma {:induction false} HashBelow(h: nat, bytes: seq<Byte>)
    requires h < MODULUS
    ensures HashFrom(h, bytes) < MODULUS
  {
  }

  /** Two streams of one length that differ in exactly one byte never collide. */
  lemma {:induction false} OneByteNeverCollides(h: nat, s: seq<Byte>, t: seq<Byte>, i: nat)
    requires h < MODULUS && |s| == |t| && i < |s| && s[i] != t[i]
    requires forall k :: 0 <= k < |s| && k != i ==> s[k] == t[k]
    ensures HashFrom(h, s) != HashFrom(h, t)
  {
    var n := |s| - 1;
    HashBelow(h, s[..n]);
    HashBelow(h, t[..n]);
    if i == n {
      assert s[..n] == t[..n];
      if HashFrom(h, s) == HashFrom(h, t) {
        StepSeparatesBytes(HashFrom(h, s[..n]), s[n], t[n]);
      }
    } else {
      OneByteNeverCollides(h, s[..n], t[..n], i);
      StepIsBijection(HashFrom(h, s[..n]), s[n]);
      StepIsBijection(HashFrom(h, t[..n]), t[n]);
    }
  }

  lemma {:induction false} XorLow(q: nat, r: nat, b: nat, k: nat)
    requires r < Pow2(k) && b < Pow2(k)
    ensures Xor(Pow2(k) * q + r, b) == Pow2(k) * q + Xor(r, b)
  {
    if k == 0 {
      XorZeroRight(q);
      XorZero();
    } else {
      hide Xor;
      var low := Pow2(k - 1) * q;
      var x := Pow2(k) * q + r;
      assert Pow2(k) * q == 2 * low by { assert (2 * Pow2(k - 1)) * q == 2 * (Pow2(k - 1) * q); }
      assert x / 2 == low + r / 2 && x % 2 == r % 2;
      XorHalves(x, b);
      XorHalves(r, b);
      XorLow(q, r / 2, b / 2, k - 1);
      Halved(Xor(x, b), low, Xor(r, b));
    }
  }

  lemma Halved(x: nat, low: nat, y: nat)
    requires x / 2 == low + y / 2 && x % 2 == y % 2
    ensures x == 2 * low + y
  {
  }

  lemma {:induction false} XorZeroRight(a: nat)
    ensures Xor(a, 0) == a
  {
    if a != 0 {
      XorZeroRight(a / 2);
    }
  }

  /** The published FNV-1a test vector for the one octet "a". */
  lemma OneLetterVector()
    ensures HashFrom(OFFSET_BASIS, [0x61]) == 0xaf63dc4c8601ec8c
  {
    XorOfBasis();
    hide Xor;
    var bytes: seq<Byte> := [0x61];
    assert bytes[..0] == [];
    assert HashFrom(OFFSET_BASIS, bytes[..0]) == OFFSET_BASIS;
    assert (0xcbf29ce484222344 * PRIME) % MODULUS == 0xaf63dc4c8601ec8c;
    assert Step(OFFSET_BASIS, bytes[0]) == 0xaf63dc4c8601ec8c;
  }

  lemma XorOfBasis()
    ensures Xor(OFFSET_BASIS, 0x61) == 0xcbf29ce484222344
  {
    XorOfLowBytes();
    hide Xor;
    assert Pow2(8) == 256 by {
      assert Pow2(4) == 16;
      Pow2Sum(4, 4);
    }
    XorLow(0xcbf29ce4842223, 0x25, 0x61, 8);
  }

  lemma XorOfLowBytes()
    ensures Xor(0x25, 0x61) == 0x44
  {
    assert Xor(0, 1) == 1 && Xor(1, 3) == 2 && Xor(2, 6) == 4;
    assert Xor(4, 12) == 8 && Xor(9, 24) == 17 && Xor(18, 48) == 34;
  }

  // ----- UTF-8

  /** The UTF-8 octets of a character. */
  function EncodeChar(c: char): seq<Byte> {
    var u := c as int;
    if u < 0x80 then [u]
    else if u < 0x800 then [0xc0 + u / 64, 0x80 + u % 64]
    else if u < 0x10000 then [0xe0 + u / 4096, 0x80 + u / 64 % 64, 0x80 + u % 64]
    else [0xf0 + u / 262144, 0x80 + u / 4096 % 64, 0x80 + u / 64 % 64, 0x80 + u % 64]
  }

  function Utf8(s: string): seq<Byte> {
    if s == [] then [] else EncodeChar(s[0]) + Utf8(s[1..])
  }

  /** The octet 0xff never occurs in UTF-8. */
  lemma {:induction false} NoSeparatorInUtf8(s: string)
    ensures SEPARATOR !in Utf8(s)
  {
    if s != [] {
      NoSeparatorInUtf8(s[1..]);
    }
  }

  /** The first octet tells how many octets its character has. */
  lemma EncodedLength(c: char)
    ensures var e := EncodeChar(c);
            |e| >= 1 && |e| == if e[0] < 0x80 then 1 else if e[0] < 0xe0 then 2 else if e[0] < 0xf0 then 3 else 4
  {
  }

  lemma DigitsDetermine(u: nat, v: nat)
    ensures u / 64 == v / 64 && u % 64 == v % 64 ==> u == v
  {
  }

  /** The remaining octets are the low sextets, so equal octets mean equal code points. */
  lemma SextetsDetermine(u: nat, v: nat)
    requires u % 64 == v % 64
    ensures u / 64 == v / 64 ==> u == v
    ensures u / 64 % 64 == v / 64 % 64 && u / 4096 == v / 4096 ==> u == v
    ensures u / 64 % 64 == v / 64 % 64 && u / 4096 % 64 == v / 4096 % 64 && u / 262144 == v / 262144 ==> u == v
  {
    DigitsDetermine(u, v);
    DigitsDetermine(u / 64, v / 64);
    DigitsDetermine(u / 4096, v / 4096);
    assert u / 64 / 64 == u / 4096 && v / 64 / 64 == v / 4096;
    assert u / 4096 / 64 == u / 262144 && v / 4096 / 64 == v / 262144;
  }

  lemma EncodeCharInjective(c: char, d: char)
    requires EncodeChar(c) == EncodeChar(d)
    ensures c == d
  {
    var u, v := c as nat, d as nat;
    var e, f := EncodeChar(c), EncodeChar(d);
    EncodedLength(c);
    EncodedLength(d);
    assert e[0] == f[0];
    if |e| > 1 {
      assert e[1] == f[1] && e[|e| - 1] == f[|f| - 1] && e[|e| - 2] == f[|f| - 2];
      assert e[|e| - 1] == 0x80 + u % 64 && f[|f| - 1] == 0x80 + v % 64;
      SextetsDetermine(u, v);
    }
  }

  lemma {:induction false} Utf8Injective(s: string, t: string)
    requires Utf8(s) == Utf8(t)
    ensures s == t
  {
    if s == [] || t == [] {
      if s != [] { EncodedLength(s[0]); }
      if t != [] { EncodedLength(t[0]); }
    } else {
      var e, f := EncodeChar(s[0]), EncodeChar(t[0]);
      EncodedLength(s[0]);
      EncodedLength(t[0]);
      assert Utf8(s)[0] == e[0] && Utf8(t)[0] == f[0];
      assert e == Utf8(s)[..|e|] == Utf8(t)[..|f|] == f;
      EncodeCharInjective(s[0], t[0]);
      assert Utf8(s[1..]) == Utf8(s)[|e|..] == Utf8(t)[|f|..] == Utf8(t[1..]);
      Utf8Injective(s[1..], t[1..]);
      assert s == [s[0]] + s[1..] && t == [t[0]] + t[1..];
    }
  }

  // ----- framing

  /** Each part's octets, then the separator. */
  function Frame(parts: seq<string>): seq<Byte> {
    if parts == [] then [] else Utf8(parts[0]) + [SEPARATOR] + Frame(parts[1..])
  }

  /** The separator follows every part, the last one included. */
  lemma FrameExample()
    ensures Frame(["a", "b"]) == [0x61, 0xff, 0x62, 0xff] && Frame([]) == [] && Frame([""]) == [0xff]
  {
    assert ["a", "b"][1..] == ["b"] && ["b"][1..] == [] && [""][1..] == [];
    assert Utf8("a") == [0x61] && Utf8("b") == [0x62] by { assert "a"[1..] == "" && "b"[1..] == ""; }
  }

  /** The framing is unambiguous: distinct lists of parts give distinct streams. */
  lemma {:induction false} FrameInjective(ps: seq<string>, qs: seq<string>)
    requires Frame(ps) == Frame(qs)
    ensures ps == qs
  {
    if ps != [] && qs != [] {
      NoSeparatorInUtf8(ps[0]);
      NoSeparatorInUtf8(qs[0]);
      CutAtFirst(Utf8(ps[0]), Frame(ps[1..]), Utf8(qs[0]), Frame(qs[1..]), SEPARATOR);
      Utf8Injective(ps[0], qs[0]);
      FrameInjective(ps[1..], qs[1..]);
      assert ps == [ps[0]] + ps[1..] && qs == [qs[0]] + qs[1..];
    }
  }

  // ----- the printed hash

  function HexDigit(d: nat): char
    requires d < 16
  {
    "0123456789abcdef"[d]
  }

  /** `digits` lower-case hexadecimal digits, most significant first. */
  function Hex(n: nat, digits: nat): string {
    if digits == 0 then "" else Hex(n / 16, digits - 1) + [HexDigit(n % 16)]
  }

  /** The value of a text of hexadecimal digits, read from the left. */
  function HexValue(s: string): nat
    requires forall i :: 0 <= i < |s| ==> s[i] in "0123456789abcdef"
  {
    if s == [] then 0
    else
      var c := s[|s| - 1];
      16 * HexValue(s[..|s| - 1]) + if c <= '9' then c as nat - '0' as nat else c as nat - 'a' as nat + 10
  }

  /** What is printed reads back as the number. */
  lemma {:induction false} HexReadsBack(n: nat, digits: nat)
    requires n < Pow2(4 * digits)
    ensures var s := Hex(n, digits);
            |s| == digits && (forall i :: 0 <= i < |s| ==> s[i] in "0123456789abcdef") && HexValue(s) == n
  {
    if digits > 0 {
      Pow2Sum(4, 4 * (digits - 1));
      assert Pow2(4) == 16 by { assert Pow2(2) == 4; }
      HexReadsBack(n / 16, digits - 1);
      HexDigitReadsBack(n % 16);
      var s := Hex(n, digits);
      assert s[..|s| - 1] == Hex(n / 16, digits - 1);
    }
  }

  lemma HexDigitReadsBack(d: nat)
    requires d < 16
    ensures var c := HexDigit(d);
            c in "0123456789abcdef" && d == if c <= '9' then c as nat - '0' as nat else c as nat - 'a' as nat + 10
  {
  }

  lemma {:induction false} HexInjective(m: nat, n: nat, digits: nat)
    requires m < Pow2(4 * digits) && n < Pow2(4 * digits) && Hex(m, digits) == Hex(n, digits)
    ensures m == n
  {
    if digits > 0 {
      Pow2Sum(4, 4 * (digits - 1));
      assert Pow2(4) == 16 by { assert Pow2(2) == 4; }
      var s, t := Hex(m, digits), Hex(n, digits);
      assert s[|s| - 1] == t[|t| - 1] && s[..|s| - 1] == t[..|t| - 1];
      HexInjective(m / 16, n / 16, digits - 1);
      HexDigitInjective(m % 16, n % 16);
    }
  }

  lemma HexDigitInjective(a: nat, b: nat)
    requires a < 16 && b < 16 && HexDigit(a) == HexDigit(b)
    ensures a == b
  {
  }

  ghost function StableHash(parts: seq<string>): string {
    Hex(HashFrom(OFFSET_BASIS, Frame(parts)), 16)
  }

  lemma {:induction false} HashConcat(h: nat, s: seq<Byte>, t: seq<Byte>)
    ensures HashFrom(h, s + t) == HashFrom(HashFrom(h, s), t)
  {
    if t == [] {
      assert s + t == s;
    } else {
      assert (s + t)[..|s + t| - 1] == s + t[..|t| - 1];
      HashConcat(h, s, t[..|t| - 1]);
    }
  }

  lemma {:induction false} FrameSnoc(parts: seq<string>, p: string)
    ensures Frame(parts + [p]) == Frame(parts) + Utf8(p) + [SEPARATOR]
  {
    if parts == [] {
      assert [p][1..] == [];
    } else {
      assert (parts + [p])[1..] == parts[1..] + [p];
      FrameSnoc(parts[1..], p);
    }
  }

  /** The nested loops over parts and their octets. */
  method ComputeStableHash(parts: seq<string>) returns (result: string)
    ensures result == StableHash(parts)
  {
    hide Step, Xor, Utf8, EncodeChar, Hex, HexDigit, Pow2;
    var hash := OFFSET_BASIS;
    for i := 0 to |parts|
      invariant hash == HashFrom(OFFSET_BASIS, Frame(parts[..i]))
    {
      var bytes := Utf8(parts[i]);
      ghost var start := hash;
      for k := 0 to |bytes|
        invariant hash == HashFrom(start, bytes[..k])
      {
        assert bytes[..k + 1][..k] == bytes[..k];
        hash := Step(hash, bytes[k]);
      }
      assert bytes[..|bytes|] == bytes;
      hash := Step(hash, SEPARATOR);
      assert parts[..i + 1] == parts[..i] + [parts[i]];
      FrameSnoc(parts[..i], parts[i]);
      HashConcat(OFFSET_BASIS, Frame(parts[..i]), bytes);
      assert (Frame(parts[..i]) + bytes + [SEPARATOR])[..|Frame(parts[..i]) + bytes|] == Frame(parts[..i]) + bytes;
    }
    assert parts[..|parts|] == parts;
    return Hex(hash, 16);
  }

  /** Lists whose framed streams have one length and differ in exactly one octet
      always print different hashes. */
  lemma OneOctetAlwaysShows(ps: seq<string>, qs: seq<string>, i: nat)
    requires |Frame(ps)| == |Frame(qs)| && i < |Frame(ps)| && Frame(ps)[i] != Frame(qs)[i]
    requires forall k :: 0 <= k < |Frame(ps)| && k != i ==> Frame(ps)[k] == Frame(qs)[k]
    ensures StableHash(ps) != StableHash(qs)
  {
    var a, b := HashFrom(OFFSET_BASIS, Frame(ps)), HashFrom(OFFSET_BASIS, Frame(qs));
    OneByteNeverCollides(OFFSET_BASIS, Frame(ps), Frame(qs), i);
    HashBelow(OFFSET_BASIS, Frame(ps));
    HashBelow(OFFSET_BASIS, Frame(qs));
    ModulusIsPow2();
    if Hex(a, 16) == Hex(b, 16) {
      HexInjective(a, b, 16);
    }
  }
}
