/** `base64_encode`: a shift accumulator that must agree with the three-byte grouping of
    section 4 of RFC 4648, in spite of the accumulator being a 32-bit signed integer that
    overflows on every input longer than three bytes. */
module Base64 {

  type Byte = b: int | 0 <= b < 256
  type Sextet = v: int | 0 <= v < 64

  function Letters(first: char, n: nat): (r: string)
    requires first as int + n <= 128
    ensures |r| == n
  {
    seq(n, i requires 0 <= i < n => (first as int + i) as char)
  }

  /** The 64-character lookup table: upper case, lower case, decimal digits, `+`, `/`. */
  function Lookup(v: Sextet): char {
    (Letters('A', 26) + Letters('a', 26) + Letters('0', 10) + "+/")[v]
  }

  // ------------------------------------------------------------- the standard's encoding

  /** The 24-bit group cut into four sextets (section 4 of RFC 4648). */
  function Group(a: Byte, b: Byte, c: Byte): (g: string)
    ensures |g| == 4
  {
    var n := a * 65536 + b * 256 + c;
    [Lookup(n / 262144), Lookup(n / 4096 % 64), Lookup(n / 64 % 64), Lookup(n % 64)]
  }

  function Encode(s: seq<Byte>): string {
    if |s| == 0 then ""
    else if |s| == 1 then Group(s[0], 0, 0)[..2] + "=="
    else if |s| == 2 then Group(s[0], s[1], 0)[..3] + "="
    else Group(s[0], s[1], s[2]) + Encode(s[3..])
  }

  /** Value of a digit character, 64 for anything else. */
  function Value(c: char): int {
    if 'A' <= c <= 'Z' then c as int - 'A' as int
    else if 'a' <= c <= 'z' then c as int - 'a' as int + 26
    else if '0' <= c <= '9' then c as int - '0' as int + 52
    else if c == '+' then 62
    else if c == '/' then 63
    else 64
  }

  /** The three bytes of a 24-bit number. */
  function Bytes3(n: int): seq<int> {
    [n / 65536, n / 256 % 256, n % 256]
  }

  /** A decoder written from the standard alone: four digits give three bytes, padding only
      at the end. */
  function Decode(t: string): seq<int> {
    if |t| < 4 then []
    else
      var n := Value(t[0]) * 262144 + Value(t[1]) * 4096;
      if t[2] == '=' then Bytes3(n)[..1]
      else if t[3] == '=' then Bytes3(n + Value(t[2]) * 64)[..2]
      else Bytes3(n + Value(t[2]) * 64 + Value(t[3])) + Decode(t[4..])
  }

  lemma LookupValue(v: Sextet)
    ensures Value(Lookup(v)) == v && Lookup(v) != '='
  {}

  lemma Mod64(q: int, m: int)
    ensures (q * 64 + m) % 64 == m % 64
  {}

  /** The sextets byte by byte: each straddles at most two of the three bytes. */
  lemma GroupDigits(a: Byte, b: Byte, c: Byte)
    ensures Group(a, b, c) == [Lookup(a / 4), Lookup(a % 4 * 16 + b / 16), Lookup(b % 16 * 4 + c / 64), Lookup(c % 64)]
  {
    hide Lookup;
    var n := a * 65536 + b * 256 + c;
    assert n / 262144 == a / 4;
    assert n / 4096 == a * 16 + b / 16;
    assert (a * 16 + b / 16) % 64 == a % 4 * 16 + b / 16;
    assert n / 64 == a * 1024 + b * 4 + c / 64;
    MiddleSextet(a, b, c);
  }

  lemma MiddleSextet(a: Byte, b: Byte, c: Byte)
    ensures (a * 1024 + b * 4 + c / 64) % 64 == b % 16 * 4 + c / 64
    ensures (a * 65536 + b * 256 + c) % 64 == c % 64
  {
    Mod64(16 * a + b / 16, b % 16 * 4 + c / 64);
    Mod64(1024 * a + 4 * b, c);
  }

  /** Four digits of a group carry its 24 bits; a zero tail shows as zero digits. */
  lemma {:induction false} DecodeGroup(a: Byte, b: Byte, c: Byte)
    ensures var g := Group(a, b, c);
            && Value(g[0]) * 262144 + Value(g[1]) * 4096 + Value(g[2]) * 64 + Value(g[3]) == a * 65536 + b * 256 + c
            && g[2] != '=' && g[3] != '='
            && (c == 0 ==> Value(g[3]) == 0)
            && (b == c == 0 ==> Value(g[2]) == 0)
  {
    hide Lookup, Value, Group;
    GroupDigits(a, b, c);
    LookupValue(a / 4);
    LookupValue(a % 4 * 16 + b / 16);
    LookupValue(b % 16 * 4 + c / 64);
    LookupValue(c % 64);
  }

  lemma UnpackBytes(a: Byte, b: Byte, c: Byte)
    ensures Bytes3(a * 65536 + b * 256 + c) == [a, b, c]
  {
    var n := a * 65536 + b * 256 + c;
    assert n / 256 == a * 256 + b;
    assert n / 65536 == a;
  }

  lemma DecodeWhole(a: Byte, b: Byte, c: Byte, rest: string)
    ensures Decode(Group(a, b, c) + rest) == [a, b, c] + Decode(rest)
  {
    hide Group, Value, Bytes3;
    DecodeGroup(a, b, c);
    UnpackBytes(a, b, c);
    var t := Group(a, b, c) + rest;
    assert t[4..] == rest;
    assert t[0] == Group(a, b, c)[0] && t[1] == Group(a, b, c)[1] && t[2] == Group(a, b, c)[2] && t[3] == Group(a, b, c)[3];
  }

  lemma DecodeTwo(a: Byte, b: Byte)
    ensures Decode(Group(a, b, 0)[..3] + "=") == [a, b]
  {
    hide Group, Value, Bytes3;
    DecodeGroup(a, b, 0);
    UnpackBytes(a, b, 0);
  }

  lemma DecodeOne(a: Byte)
    ensures Decode(Group(a, 0, 0)[..2] + "==") == [a]
  {
    hide Group, Value, Bytes3;
    DecodeGroup(a, 0, 0);
    UnpackBytes(a, 0, 0);
  }

  /** Decoding undoes encoding, for every input; the encoded length is 4*ceil(n/3). */
  lemma {:induction false} RoundTrip(s: seq<Byte>)
    ensures Decode(Encode(s)) == s
    ensures |Encode(s)| == (|s| + 2) / 3 * 4
    decreases |s|
  {
    hide Group, Value, Bytes3, Decode;
    if |s| == 0 {
      DecodeNothing();
    } else if |s| == 1 {
      DecodeOne(s[0]);
    } else if |s| == 2 {
      DecodeTwo(s[0], s[1]);
    } else {
      DecodeWhole(s[0], s[1], s[2], Encode(s[3..]));
      RoundTrip(s[3..]);
      assert s == [s[0], s[1], s[2]] + s[3..];
    }
  }

  lemma DecodeNothing()
    ensures Decode("") == []
  {}

  // ------------------------------------------------------------- the source's loop

  /** What a 32-bit signed integer keeps of an unbounded one. */
  function Wrap32(x: int): int {
    (x + 0x8000_0000) % 0x1_0000_0000 - 0x8000_0000
  }

  lemma WrapKeepsLowBits(x: int)
    ensures -0x8000_0000 <= Wrap32(x) < 0x8000_0000
    ensures Wrap32(x) % 4096 == x % 4096
  {
    var q := (x + 0x8000_0000) / 0x1_0000_0000;
    assert Wrap32(x) == x - q * 0x1_0000_0000 == x - (q * 0x10_0000) * 4096;
  }

  /** `(val >> k) & 0x3F` with an arithmetic shift, for the shifts the loop uses. */
  function Bits(val: int, k: nat): (r: Sextet) {
    if k == 0 then val % 64
    else if k == 2 then val / 4 % 64
    else if k == 4 then val / 16 % 64
    else val / 64 % 64
  }

  lemma Low1(x: int)
    ensures x % 64 == x % 4096 % 64
  {
    Mod64(64 * (x / 4096), x % 4096);
  }

  lemma Low4(x: int)
    ensures x / 4 % 64 == x % 4096 / 4 % 64
  {
    var q, m := x / 4096, x % 4096;
    assert (q * 4096 + m) / 4 == q * 1024 + m / 4;
    Mod64(16 * q, m / 4);
  }

  lemma Low16(x: int)
    ensures x / 16 % 64 == x % 4096 / 16 % 64
  {
    var q, m := x / 4096, x % 4096;
    assert (q * 4096 + m) / 16 == q * 256 + m / 16;
    Mod64(4 * q, m / 16);
  }

  lemma Low64(x: int)
    ensures x / 64 % 64 == x % 4096 / 64 % 64
  {
    var q, m := x / 4096, x % 4096;
    assert (q * 4096 + m) / 64 == q * 64 + m / 64;
    Mod64(q, m / 64);
  }

  /** Only the low twelve bits of the accumulator can reach the output: any two accumulators
      that agree modulo 4096, a wrapped and an unbounded one say, print the same digits. */
  lemma OnlyLowBits(x: int, y: int, k: nat)
    requires k in {0, 2, 4, 6} && x % 4096 == y % 4096
    ensures Bits(x, k) == Bits(y, k)
  {
    Low1(x); Low4(x); Low16(x); Low64(x);
    Low1(y); Low4(y); Low16(y); Low64(y);
  }

  lemma PrintsUnwrapped(x: int, k: nat)
    requires k in {0, 2, 4, 6}
    ensures Bits(Wrap32(x), k) == Bits(x, k)
  {
    hide Bits, Wrap32;
    WrapKeepsLowBits(x);
    OnlyLowBits(Wrap32(x), x, k);
  }

  lemma WrapKeepsByte(val: int, c: Byte)
    ensures Wrap32(val * 256 + c) % 256 == c
  {
    var x := val * 256 + c;
    var q := (x + 0x8000_0000) / 0x1_0000_0000;
    assert Wrap32(x) == x - q * 0x1_0000_0000 == (val - q * 0x100_0000) * 256 + c;
    Mod256(val - q * 0x100_0000, c);
  }

  lemma Mod256(h: int, c: Byte)
    ensures (h * 256 + c) % 256 == c
  {}

  /** The digits the loop has printed after one or two bytes of a group. */
  function Partial(tail: seq<Byte>): string
    requires |tail| <= 2
  {
    if |tail| == 0 then ""
    else if |tail| == 1 then Group(tail[0], 0, 0)[..1]
    else Group(tail[0], tail[1], 0)[..2]
  }

  /** What is known of the accumulator after those bytes: the last of them is in its low
      eight bits, and `valb` counts the bits not printed yet. */
  predicate Holds(tail: seq<Byte>, val: int, valb: int)
    requires |tail| <= 2
  {
    if |tail| == 0 then valb == -6
    else if |tail| == 1 then valb == -4 && val % 256 == tail[0]
    else valb == -2 && val % 256 == tail[1]
  }

  lemma FirstDigit(val: int, a: Byte)
    ensures Bits(Wrap32(val * 256 + a), 2) == a / 4
  {
    hide Wrap32;
    var x := val * 256 + a;
    PrintsUnwrapped(x, 2);
    assert x / 4 == val * 64 + a / 4;
    Mod64(val, a / 4);
  }

  lemma SecondDigit(val: int, a: Byte, b: Byte)
    requires val % 256 == a
    ensures Bits(Wrap32(val * 256 + b), 4) == a % 4 * 16 + b / 16
  {
    hide Wrap32;
    var x := val * 256 + b;
    PrintsUnwrapped(x, 4);
    assert x / 16 == val * 16 + b / 16;
    var h := val / 256;
    Mod64(64 * h + a / 4, a % 4 * 16 + b / 16);
  }

  lemma LastDigits(val: int, b: Byte, c: Byte)
    requires val % 256 == b
    ensures Bits(Wrap32(val * 256 + c), 6) == b % 16 * 4 + c / 64
    ensures Bits(Wrap32(val * 256 + c), 0) == c % 64
  {
    hide Wrap32;
    var x := val * 256 + c;
    PrintsUnwrapped(x, 6);
    PrintsUnwrapped(x, 0);
    assert x / 64 == val * 4 + c / 64;
    var h := val / 256;
    Mod64(16 * h + b / 16, b % 16 * 4 + c / 64);
    Mod64(val * 4, c);
  }

  /** One turn of the outer loop: shift a byte in, then print one digit, or two when the
      byte completes a group. */
  method Push(ghost tail: seq<Byte>, c: Byte, val: int, valb: int)
    returns (val': int, valb': int, digits: string)
    requires |tail| <= 2 && Holds(tail, val, valb)
    ensures -0x8000_0000 <= val' < 0x8000_0000
    ensures |tail| < 2 ==> Holds(tail + [c], val', valb') && Partial(tail) + digits == Partial(tail + [c])
    ensures |tail| == 2 ==> Holds([], val', valb') && Partial(tail) + digits == Group(tail[0], tail[1], c)
  {
    hide Group, Lookup, Bits, Wrap32;
    WrapKeepsLowBits(val * 256 + c);
    val' := Wrap32(val * 256 + c);
    valb' := valb + 8;
    digits := "";
    while valb' >= 0
      invariant
        || (valb' == valb + 8 && digits == "")
        || (valb' == valb + 2 && digits == [Lookup(Bits(val', valb + 8))])
        || (valb == -2 && valb' == -6 && digits == [Lookup(Bits(val', 6)), Lookup(Bits(val', 0))])
      decreases valb' + 6
    {
      digits := digits + [Lookup(Bits(val', valb'))];
      valb' := valb' - 6;
    }
    PushedDigits(tail, c, val, val', digits);
  }

  lemma PushedDigits(tail: seq<Byte>, c: Byte, val: int, val': int, digits: string)
    requires |tail| <= 2 && (tail != [] ==> val % 256 == tail[|tail| - 1])
    requires val' == Wrap32(val * 256 + c)
    requires digits == if |tail| == 2 then [Lookup(Bits(val', 6)), Lookup(Bits(val', 0))]
                       else [Lookup(Bits(val', if tail == [] then 2 else 4))]
    ensures val' % 256 == c
    ensures |tail| < 2 ==> Partial(tail) + digits == Partial(tail + [c])
    ensures |tail| == 2 ==> Partial(tail) + digits == Group(tail[0], tail[1], c)
  {
    hide Group, Lookup, Bits, Wrap32;
    WrapKeepsByte(val, c);
    if |tail| == 0 {
      PushedFirst(c, val);
    } else if |tail| == 1 {
      PushedSecond(tail[0], c, val);
    } else {
      PushedLast(tail[0], tail[1], c, val);
    }
  }

  lemma PushedFirst(c: Byte, val: int)
    ensures [Lookup(Bits(Wrap32(val * 256 + c), 2))] == Group(c, 0, 0)[..1]
  {
    hide Group, Lookup, Bits, Wrap32;
    GroupDigits(c, 0, 0);
    FirstDigit(val, c);
  }

  lemma PushedSecond(a: Byte, c: Byte, val: int)
    requires val % 256 == a
    ensures Group(a, 0, 0)[..1] + [Lookup(Bits(Wrap32(val * 256 + c), 4))] == Group(a, c, 0)[..2]
  {
    hide Group, Lookup, Bits, Wrap32;
    GroupDigits(a, 0, 0);
    GroupDigits(a, c, 0);
    SecondDigit(val, a, c);
  }

  lemma PushedLast(a: Byte, b: Byte, c: Byte, val: int)
    requires val % 256 == b
    ensures Group(a, b, 0)[..2] + [Lookup(Bits(Wrap32(val * 256 + c), 6)), Lookup(Bits(Wrap32(val * 256 + c), 0))]
         == Group(a, b, c)
  {
    hide Group, Lookup, Bits, Wrap32;
    GroupDigits(a, b, 0);
    GroupDigits(a, b, c);
    LastDigits(val, b, c);
  }

  lemma {:induction false} EncodeAppend(s: seq<Byte>, t: seq<Byte>)
    requires |s| % 3 == 0
    ensures Encode(s + t) == Encode(s) + Encode(t)
    decreases |s|
  {
    hide Group;
    if s == [] {
      assert s + t == t;
    } else {
      EncodeAppend(s[3..], t);
      assert (s + t)[3..] == s[3..] + t;
    }
  }

  /** Loop invariant: whole groups encoded, the open group's digits printed, the rest of its
      bits in the accumulator. */
  ghost predicate EncodesPrefix(s: seq<Byte>, i: nat, val: int, valb: int, out: string)
    requires i <= |s|
  {
    var g := i - i % 3;
    Holds(s[g..i], val, valb) && out == Encode(s[..g]) + Partial(s[g..i])
  }

  lemma PrefixStart(s: seq<Byte>)
    ensures EncodesPrefix(s, 0, 0, -6, "")
  {}

  lemma PrefixStep(s: seq<Byte>, i: nat, val: int, valb: int, out: string, val': int, valb': int, digits: string)
    requires i < |s| && EncodesPrefix(s, i, val, valb, out)
    requires var tail := s[i - i % 3..i];
      if i % 3 < 2 then Holds(tail + [s[i]], val', valb') && Partial(tail) + digits == Partial(tail + [s[i]])
      else Holds([], val', valb') && Partial(tail) + digits == Group(tail[0], tail[1], s[i])
    ensures EncodesPrefix(s, i + 1, val', valb', out + digits)
  {
    hide Group, Partial, Holds, Encode;
    var g := i - i % 3;
    var tail := s[g..i];
    assert Encode(s[..g]) + (Partial(tail) + digits) == out + digits;
    if i % 3 < 2 {
      assert tail + [s[i]] == s[g..i + 1];
    } else {
      WholeGroup(s, g);
      assert Partial([]) == "" by { EmptyTail(); }
      assert s[i + 1..i + 1] == [];
      assert Encode(s[..i + 1]) + "" == Encode(s[..i + 1]);
    }
  }

  lemma EmptyTail()
    ensures Partial([]) == "" && Encode([]) == ""
  {}

  lemma WholeGroup(s: seq<Byte>, g: nat)
    requires g % 3 == 0 && g + 3 <= |s|
    ensures Encode(s[..g + 3]) == Encode(s[..g]) + Group(s[g], s[g + 1], s[g + 2])
  {
    var t := s[g..g + 3];
    EncodeAppend(s[..g], t);
    assert s[..g + 3] == s[..g] + t;
    assert t[3..] == [];
  }

  function Padding(k: nat): (p: string)
    ensures |p| == k
  {
    if k == 0 then "" else "=" + Padding(k - 1)
  }

  /** The left-over digit when `r` bytes of the last group are there. */
  function LastDigit(r: nat, val: int): string {
    if r == 0 then ""
    else [Lookup(Bits(Wrap32(val * 256), if r == 1 then 4 else 6))]
  }

  lemma EncodeTail(t: seq<Byte>, val: int, valb: int)
    requires |t| <= 2 && Holds(t, val, valb)
    ensures valb == [-6, -4, -2][|t|]
    ensures Encode(t) == Partial(t) + LastDigit(|t|, val) + Padding((3 - |t|) % 3)
  {
    hide Group, Lookup, Bits, Wrap32;
    assert Padding(0) == "" && Padding(1) == "=" && Padding(2) == "==";
    if |t| == 1 {
      SecondDigit(val, t[0], 0);
      GroupDigits(t[0], 0, 0);
    } else if |t| == 2 {
      LastDigits(val, t[1], 0);
      GroupDigits(t[0], t[1], 0);
    }
  }

  lemma Regroup(a: string, b: string, c: string, d: string)
    ensures a + (b + c + d) == a + b + c + d
  {}

  lemma WholeGroups(n: nat)
    ensures 0 <= n - n % 3 <= n && (n - n % 3) % 3 == 0
  {}

  /** What is missing after the loop: the digit of the left-over bits, then padding. */
  lemma Finish(s: seq<Byte>, val: int, valb: int, out: string)
    requires EncodesPrefix(s, |s|, val, valb, out)
    ensures valb == [-6, -4, -2][|s| % 3]
    ensures Encode(s) == out + LastDigit(|s| % 3, val) + Padding((3 - |s| % 3) % 3)
  {
    hide Encode, Partial, Padding, LastDigit, Holds, Group;
    var g := |s| - |s| % 3;
    var t := s[g..|s|];
    WholeGroups(|s|);
    assert |s[..g]| == g && |t| == |s| % 3 && |t| <= 2;
    EncodeAppend(s[..g], t);
    EncodeTail(t, val, valb);
    assert s == s[..g] + t;
    assert out == Encode(s[..g]) + Partial(t);
    Regroup(Encode(s[..g]), Partial(t), LastDigit(|t|, val), Padding((3 - |t|) % 3));
  }

  lemma WholeQuads(s: seq<Byte>)
    ensures |Encode(s)| % 4 == 0
  {
    hide Encode, Decode;
    RoundTrip(s);
  }

  /** The closing loop: pad until the length is a multiple of four. */
  method PadToFour(digits: string, ghost k: nat) returns (out: string)
    requires k < 4 && (|digits| + k) % 4 == 0
    ensures out == digits + Padding(k)
  {
    out := digits;
    ghost var left := k;
    while |out| % 4 != 0
      invariant 0 <= left < 4 && (|out| + left) % 4 == 0
      invariant out + Padding(left) == digits + Padding(k)
      decreases left
    {
      out := out + "=";
      left := left - 1;
    }
    assert left == 0 && Padding(0) == "";
  }

  /** `base64_encode`: the accumulator loop, the left-over digit and the padding loop give
      the encoding of the standard, whatever the 32-bit accumulator has lost. */
  method Base64Encode(s: seq<Byte>) returns (out: string)
    ensures out == Encode(s)
  {
    hide Encode, Group, Partial, Holds, EncodesPrefix, Lookup, Wrap32, Padding;
    out := "";
    var val, valb := 0, -6;
    PrefixStart(s);
    var i := 0;
    while i < |s|
      invariant i <= |s|
      invariant EncodesPrefix(s, i, val, valb, out)
    {
      PrefixHolds(s, i, val, valb, out);
      var val', valb', digits := Push(s[i - i % 3..i], s[i], val, valb);
      PrefixStep(s, i, val, valb, out, val', valb', digits);
      val, valb, out := val', valb', out + digits;
      i := i + 1;
    }
    out := CloseGroup(s, val, valb, out);
  }

  /** The code after the loop. */
  method CloseGroup(ghost s: seq<Byte>, val: int, valb: int, done: string) returns (out: string)
    requires EncodesPrefix(s, |s|, val, valb, done)
    ensures out == Encode(s)
  {
    hide Encode, Partial, Holds, EncodesPrefix, Lookup, Wrap32, Padding, Bits;
    Finish(s, val, valb, done);
    WholeQuads(s);
    out := done;
    if valb > -6 { out := out + [Lookup(Bits(Wrap32(val * 256), valb + 8))]; }
    assert out == done + LastDigit(|s| % 3, val);
    out := PadToFour(out, (3 - |s| % 3) % 3);
  }

  lemma PrefixHolds(s: seq<Byte>, i: nat, val: int, valb: int, out: string)
    requires i <= |s| && EncodesPrefix(s, i, val, valb, out)
    ensures Holds(s[i - i % 3..i], val, valb)
  {}
}
