/**
 * The change digest `menuHash` (helpers/menu.js:8-12): 32-bit FNV-1a over
 * the UTF-16 code units of a string, rendered with `toString(16)`.
 */
module ChangeDetector {

  const OffsetBasis: nat := 2166136261
  const Prime: nat := 16777619
  const Modulus: nat := 0x1_0000_0000

  /** A UTF-16 code unit, what `charCodeAt` returns. */
  type CodeUnit = u: nat | u < 0x1_0000

  // ---------------------------------------------------------------------
  // UTF-16

  /** The code units of one character: itself, or a surrogate pair. */
  function CodeUnits(c: char): (r: seq<CodeUnit>)
    ensures |r| == (if c as int < 0x1_0000 then 1 else 2)
    ensures c as int < 0x1_0000 ==> r[0] == c as int
    ensures c as int >= 0x1_0000 ==> 0xD800 <= r[0] < 0xDC00 <= r[1] < 0xE000
  {
    var v := c as int;
    if v < 0x1_0000 then [v]
    else [0xD800 + (v - 0x1_0000) / 0x400, 0xDC00 + (v - 0x1_0000) % 0x400]
  }

  /** The code units a JavaScript string holding the characters of `s` has. */
  function Utf16(s: string): (r: seq<CodeUnit>)
    ensures |r| >= |s|
  {
    if s == [] then [] else CodeUnits(s[0]) + Utf16(s[1..])
  }

  /** A string of Basic Multilingual Plane characters has one code unit per character. */
  lemma {:induction false} Utf16OfBmp(s: string)
    requires forall k :: 0 <= k < |s| ==> s[k] as int < 0x1_0000
    ensures |Utf16(s)| == |s|
    ensures forall k :: 0 <= k < |s| ==> Utf16(s)[k] == s[k] as int
  {
    if s != [] {
      Utf16OfBmp(s[1..]);
      assert Utf16(s) == [s[0] as int] + Utf16(s[1..]);
    }
  }

  // ---------------------------------------------------------------------
  // The JavaScript 32-bit operators the loop uses

  /** ECMAScript ToUint32 (its modulo is the mathematical one, as Dafny's is). */
  function ToUint32(x: int): (r: nat)
    ensures r < Modulus && (r - x) % Modulus == 0
  {
    x % Modulus
  }

  /** ECMAScript ToInt32. */
  function ToInt32(x: int): (r: int)
    ensures -0x8000_0000 <= r < 0x8000_0000
    ensures ToUint32(r) == ToUint32(x)
  {
    var m := x % Modulus;
    if m >= 0x8000_0000 then m - Modulus else m
  }

  function Pow2(n: nat): (r: nat)
    ensures r >= 1
  {
    if n == 0 then 1 else 2 * Pow2(n - 1)
  }

  /** Bitwise exclusive or of the low `bits` bits of `a` and `b`. */
  function XorBits(a: nat, b: nat, bits: nat): (r: nat)
    ensures r < Pow2(bits)
  {
    if bits == 0 then 0
    else (if a % 2 != b % 2 then 1 else 0) + 2 * XorBits(a / 2, b / 2, bits - 1)
  }

  /** Bitwise exclusive or of two 32-bit patterns. */
  function Xor32(a: nat, b: nat): (r: nat)
    ensures r < Modulus
  {
    assert Pow2(8) == 0x100;
    assert Pow2(16) == 2 * 2 * 2 * 2 * 2 * 2 * 2 * 2 * Pow2(8);
    assert Pow2(24) == 2 * 2 * 2 * 2 * 2 * 2 * 2 * 2 * Pow2(16);
    assert Pow2(32) == 2 * 2 * 2 * 2 * 2 * 2 * 2 * 2 * Pow2(24);
    XorBits(a, b, 32)
  }

  /** The `^` operator: exclusive or of the ToInt32 patterns, read as a signed integer. */
  function JsXor(a: int, b: int): int {
    ToInt32(Xor32(ToUint32(a), ToUint32(b)))
  }

  /** `Math.imul`: the low 32 bits of the product, read as a signed integer. */
  function Imul(a: int, b: int): int {
    ToInt32((ToUint32(a) * ToUint32(b)) % Modulus)
  }

  // ---------------------------------------------------------------------
  // FNV-1a

  /** One FNV-1a round on naturals: `((h xor u) * prime) mod 2^32`. */
  function Mix(h: nat, u: CodeUnit): (r: nat)
    requires h < Modulus
    ensures r < Modulus
  {
    (Xor32(h, u) * Prime) % Modulus
  }

  /** The rounds the loop at helpers/menu.js:10 runs, `h ^= c; h = Math.imul(h, prime) >>> 0`, are FNV-1a rounds. */
  lemma JsRoundIsMix(h: nat, u: CodeUnit)
    requires h < Modulus
    ensures ToUint32(Imul(JsXor(h, u), Prime)) == Mix(h, u)
  {
    var x := Xor32(h, u);
    Uint32Small(h);
    Uint32Small(u);
    Uint32Small(x);
    Uint32Small(Prime);
    var j := JsXor(h, u);
    assert ToUint32(j) == x;
    var m := (x * Prime) % Modulus;
    assert Imul(j, Prime) == ToInt32(m);
    Uint32Small(m);
  }

  lemma Uint32Small(y: int)
    requires 0 <= y < Modulus
    ensures ToUint32(y) == y
  {
  }

  /** The left fold of `Mix` over `us`, starting from `h`. */
  function Fold(h: nat, us: seq<CodeUnit>): (r: nat)
    requires h < Modulus
    ensures r < Modulus
    decreases |us|
  {
    if us == [] then h else Fold(Mix(h, us[0]), us[1..])
  }

  /** 32-bit FNV-1a of a sequence of code units. */
  function Fnv1a(us: seq<CodeUnit>): (r: nat)
    ensures r < Modulus
  {
    Fold(OffsetBasis, us)
  }

  /** Folding over a concatenation folds over the second part from where the first ended. */
  lemma {:induction false} FoldAppend(h: nat, a: seq<CodeUnit>, b: seq<CodeUnit>)
    requires h < Modulus
    ensures Fold(h, a + b) == Fold(Fold(h, a), b)
    decreases |a|
  {
    if a != [] {
      assert (a + b)[0] == a[0] && (a + b)[1..] == a[1..] + b;
      FoldAppend(Mix(h, a[0]), a[1..], b);
    } else {
      assert a + b == b;
    }
  }

  /** Appending one code unit applies one more round. */
  lemma FnvSnoc(us: seq<CodeUnit>, u: CodeUnit)
    ensures Fnv1a(us + [u]) == Mix(Fnv1a(us), u)
  {
    FoldAppend(OffsetBasis, us, [u]);
  }

  // ---------------------------------------------------------------------
  // Number.prototype.toString(16)

  function HexDigit(d: nat): (c: char)
    requires d < 16
    ensures ('0' <= c <= '9') || ('a' <= c <= 'f')
  {
    if d < 10 then (('0' as int) + d) as char else (('a' as int) + d - 10) as char
  }

  function HexDigitValue(c: char): nat {
    if '0' <= c <= '9' then c as int - '0' as int
    else if 'a' <= c <= 'f' then c as int - 'a' as int + 10
    else 0
  }

  /** `n.toString(16)`: lower-case hexadecimal without leading zeros. */
  function Hex(n: nat): (r: string)
    ensures |r| >= 1
    ensures forall k :: 0 <= k < |r| ==> ('0' <= r[k] <= '9') || ('a' <= r[k] <= 'f')
    ensures r[0] == '0' ==> n == 0
  {
    if n < 16 then [HexDigit(n)] else Hex(n / 16) + [HexDigit(n % 16)]
  }

  /** The value a string of hexadecimal digits denotes. */
  function HexValue(s: string): nat {
    if s == [] then 0 else HexValue(s[..|s| - 1]) * 16 + HexDigitValue(s[|s| - 1])
  }

  /** Reading back the hexadecimal rendering gives the number. */
  lemma {:induction false} HexRoundTrip(n: nat)
    ensures HexValue(Hex(n)) == n
  {
    if n < 16 {
      HexDigitRoundTrip(n);
      assert HexValue([HexDigit(n)]) == HexValue([]) * 16 + HexDigitValue(HexDigit(n));
    } else {
      HexRoundTrip(n / 16);
      HexDigitRoundTrip(n % 16);
      HexValueSnoc(Hex(n / 16), HexDigit(n % 16));
    }
  }

  lemma HexDigitRoundTrip(d: nat)
    requires d < 16
    ensures HexDigitValue(HexDigit(d)) == d
  {
  }

  /** Appending a digit multiplies the value read so far by sixteen and adds the digit. */
  lemma HexValueSnoc(s: string, c: char)
    ensures HexValue(s + [c]) == HexValue(s) * 16 + HexDigitValue(c)
  {
    assert (s + [c])[..|s + [c]| - 1] == s;
  }

  /** Distinct numbers have distinct hexadecimal renderings. */
  lemma HexInjective(a: nat, b: nat)
    ensures Hex(a) == Hex(b) <==> a == b
  {
    HexRoundTrip(a);
    HexRoundTrip(b);
  }

  // ---------------------------------------------------------------------
  // menuHash

  /** What `menuHash(s)` returns. */
  function Digest(s: string): string {
    Hex(Fnv1a(Utf16(s)))
  }

  function Pow16(k: nat): (r: nat)
    ensures r >= 1
  {
    if k == 0 then 1 else 16 * Pow16(k - 1)
  }

  /** A number below `16^k` has at most `k` hexadecimal digits. */
  lemma {:induction false} HexLength(n: nat, k: nat)
    requires 1 <= k && n < Pow16(k)
    ensures |Hex(n)| <= k
  {
    if n >= 16 {
      assert k >= 2;
      assert n / 16 < Pow16(k - 1);
      HexLength(n / 16, k - 1);
    }
  }

  /** A digest is one to eight lower-case hexadecimal digits, without a leading zero unless it is `0`. */
  lemma DigestShape(s: string)
    ensures 1 <= |Digest(s)| <= 8
    ensures forall k :: 0 <= k < |Digest(s)| ==> ('0' <= Digest(s)[k] <= '9') || ('a' <= Digest(s)[k] <= 'f')
    ensures Digest(s)[0] == '0' ==> Digest(s) == "0"
  {
    assert Pow16(8) == Modulus;
    HexLength(Fnv1a(Utf16(s)), 8);
  }

  /** Comparing digests compares the 32-bit FNV-1a values. */
  lemma DigestEqual(a: string, b: string)
    ensures Digest(a) == Digest(b) <==> Fnv1a(Utf16(a)) == Fnv1a(Utf16(b))
  {
    HexInjective(Fnv1a(Utf16(a)), Fnv1a(Utf16(b)));
  }

  /** The digest of the empty string is the offset basis. */
  lemma DigestOfEmpty()
    ensures Digest("") == "811c9dc5"
  {
    assert Utf16("") == [];
    assert Fnv1a([]) == 0x811c9dc5;
    assert 0x811c9dc5 / 16 == 0x811c9dc && 0x811c9dc5 % 16 == 5;
    assert Hex(0x811c9dc5) == Hex(0x811c9dc) + "5";
    assert 0x811c9dc / 16 == 0x811c9d && 0x811c9dc % 16 == 12;
    assert Hex(0x811c9dc) == Hex(0x811c9d) + "c";
    assert 0x811c9d / 16 == 0x811c9 && 0x811c9d % 16 == 13;
    assert Hex(0x811c9d) == Hex(0x811c9) + "d";
    assert 0x811c9 / 16 == 0x811c && 0x811c9 % 16 == 9;
    assert Hex(0x811c9) == Hex(0x811c) + "9";
    assert 0x811c / 16 == 0x811 && 0x811c % 16 == 12;
    assert Hex(0x811c) == Hex(0x811) + "c";
    assert 0x811 / 16 == 0x81 && 0x811 % 16 == 1;
    assert Hex(0x811) == Hex(0x81) + "1";
    assert 0x81 / 16 == 0x8 && 0x81 % 16 == 1;
    assert Hex(0x81) == Hex(0x8) + "1";
    assert Hex(0x8) == "8";
  }

  /** `menuHash` (helpers/menu.js:8-12): the loop over the code units. */
  method MenuHash(s: string) returns (digest: string)
    ensures digest == Digest(s)
  {
    var units := Utf16(s);
    var h: nat := OffsetBasis;
    var i := 0;
    while i < |units|
      invariant 0 <= i <= |units|
      invariant h < Modulus
      invariant Fold(h, units[i..]) == Fnv1a(units)
    {
      assert units[i..] == [units[i]] + units[i + 1..];
      JsRoundIsMix(h, units[i]);
      var x := JsXor(h, units[i]);
      h := ToUint32(Imul(x, Prime));
      i := i + 1;
    }
    digest := Hex(h);
  }
}
