/**
  The base64 encoder and decoder of the kernel's C library (src/compat5.c), and the round trip
  section 4 of RFC 4648 asks for.
 */
module Base64 {
  import opened Machine
  import opened Products

  type Sextet = i: int | 0 <= i < 64

  const PAD := '='

  /** The base64 alphabet: the character of each value. */
  function Digit(i: Sextet): char {
    if i < 26 then 'A' + i as char
    else if i < 52 then 'a' + (i - 26) as char
    else if i < 62 then '0' + (i - 52) as char
    else if i == 62 then '+' else '/'
  }

  /** The alphabet as the source spells it, eight values a piece. */
  const ALPHABET: seq<string> :=
    ["ABCDEFGH", "IJKLMNOP", "QRSTUVWX", "YZabcdef", "ghijklmn", "opqrstuv", "wxyz0123", "456789+/"]

  lemma DigitsAreAlphabet(i: Sextet)
    ensures |ALPHABET| == 8 && |ALPHABET[i / 8]| == 8 && Digit(i) == ALPHABET[i / 8][i % 8]
  {
    var piece, at := i / 8, i % 8;
    assert at == 0 || at == 1 || at == 2 || at == 3 || at == 4 || at == 5 || at == 6 || at == 7;
  }

  /** The position of a character in the alphabet, or -1: what strchr finds. */
  function IndexOf(c: char): (i: int)
    ensures i == -1 || 0 <= i < 64
    ensures 0 <= i < 64 ==> Digit(i) == c
    ensures i == -1 ==> forall j: Sextet :: Digit(j) != c
  {
    if 'A' <= c <= 'Z' then (c - 'A') as int
    else if 'a' <= c <= 'z' then (c - 'a') as int + 26
    else if '0' <= c <= '9' then (c - '0') as int + 52
    else if c == '+' then 62 else if c == '/' then 63 else -1
  }

  lemma IndexOfDigit(i: Sextet)
    ensures IndexOf(Digit(i)) == i && Digit(i) != PAD && !IsSpace(Digit(i))
  {}

  predicate IsSpace(c: char) {
    c == ' ' || c == '\t' || c == '\n' || c == '\r' || c == 12 as char || c == 11 as char
  }

  /** Blank, and the five control characters from tab to carriage return. */
  lemma SpacesAre(c: char)
    ensures IsSpace(c) <==> c as int == 32 || 9 <= c as int <= 13
  {}

  // ----- Encoding ----------------------------------------------------------------------------------

  /** The sextets of a byte string, the last group filled up with zero bits. */
  function Sextets(s: seq<Byte>): (xs: seq<Sextet>)
    ensures |xs| == |s| / 3 * 4 + (if |s| % 3 == 0 then 0 else |s| % 3 + 1)
  {
    if |s| == 0 then []
    else if |s| == 1 then [s[0] / 4, s[0] % 4 * 16]
    else if |s| == 2 then [s[0] / 4, s[0] % 4 * 16 + s[1] / 16, s[1] % 16 * 4]
    else [s[0] / 4, s[0] % 4 * 16 + s[1] / 16, s[1] % 16 * 4 + s[2] / 64, s[2] % 64] + Sextets(s[3..])
  }

  function Digits(xs: seq<Sextet>): (t: string)
    ensures |t| == |xs|
  {
    seq(|xs|, i requires 0 <= i < |xs| => Digit(xs[i]))
  }

  /** Section 4 of RFC 4648. */
  function Encoded(s: seq<Byte>): (t: string)
    ensures |t| == (|s| + 2) / 3 * 4
  {
    Digits(Sextets(s)) + if |s| % 3 == 0 then "" else if |s| % 3 == 1 then "==" else "="
  }

  /** The value of four sextets, and of three bytes, as one number of 24 bits. */
  function Bits24(a: Sextet, b: Sextet, c: Sextet, d: Sextet): int {
    a * 0x4_0000 + b * 0x1000 + c * 0x40 + d
  }

  function Bytes24(a: int, b: int, c: int): int {
    a * 0x1_0000 + b * 0x100 + c
  }

  /** Every three bytes and their four sextets are the same 24 bits; a shorter rest is filled up with zeros. */
  lemma {:induction false} SextetsAreBits(s: seq<Byte>, k: nat)
    requires 3 * k < |s|
    ensures 4 * k + 1 < |Sextets(s)|
    ensures var xs, n := Sextets(s), |s| - 3 * k;
            if n >= 3 then
              4 * k + 3 < |xs| && Bits24(xs[4 * k], xs[4 * k + 1], xs[4 * k + 2], xs[4 * k + 3])
                                  == Bytes24(s[3 * k], s[3 * k + 1], s[3 * k + 2])
            else if n == 2 then
              |xs| == 4 * k + 3 && Bits24(xs[4 * k], xs[4 * k + 1], xs[4 * k + 2], 0)
                                   == Bytes24(s[3 * k], s[3 * k + 1], 0)
            else
              |xs| == 4 * k + 2 && Bits24(xs[4 * k], xs[4 * k + 1], 0, 0) == Bytes24(s[3 * k], 0, 0)
    decreases k
  {
    if k > 0 {
      SextetsAreBits(s[3..], k - 1);
      SextetsShift(s, 4 * k);
      if 4 * k + 1 < |Sextets(s)| { SextetsShift(s, 4 * k + 1); }
      if 4 * k + 2 < |Sextets(s)| { SextetsShift(s, 4 * k + 2); }
      if 4 * k + 3 < |Sextets(s)| { SextetsShift(s, 4 * k + 3); }
    }
  }

  lemma SextetsShift(s: seq<Byte>, i: nat)
    requires |s| >= 3 && 4 <= i < |Sextets(s)|
    ensures i - 4 < |Sextets(s[3..])| && Sextets(s)[i] == Sextets(s[3..])[i - 4]
  {}

  lemma DigitsConcat(xs: seq<Sextet>, ys: seq<Sextet>)
    ensures Digits(xs + ys) == Digits(xs) + Digits(ys)
  {
    hide Digit;
  }

  lemma DigitsOfFour(a: Sextet, b: Sextet, c: Sextet, d: Sextet)
    ensures Digits([a, b, c, d]) == [Digit(a), Digit(b), Digit(c), Digit(d)]
  {
    hide Digit;
  }

  lemma EncodedGroup(s: seq<Byte>)
    requires |s| >= 3
    ensures Encoded(s) == [Digit(s[0] / 4), Digit(s[0] % 4 * 16 + s[1] / 16),
                           Digit(s[1] % 16 * 4 + s[2] / 64), Digit(s[2] % 64)] + Encoded(s[3..])
  {
    hide Digit, Digits;
    var a: Sextet, b: Sextet, c: Sextet, d: Sextet :=
      s[0] / 4, s[0] % 4 * 16 + s[1] / 16, s[1] % 16 * 4 + s[2] / 64, s[2] % 64;
    DigitsConcat([a, b, c, d], Sextets(s[3..]));
    DigitsOfFour(a, b, c, d);
    assert Sextets(s) == [a, b, c, d] + Sextets(s[3..]);
    hide Sextets;
    assert |s[3..]| % 3 == |s| % 3;
  }

  lemma EncodedTail(s: seq<Byte>)
    requires |s| <= 2
    ensures s == [] ==> Encoded(s) == ""
    ensures |s| == 1 ==> Encoded(s) == [Digit(s[0] / 4), Digit(s[0] % 4 * 16), PAD, PAD]
    ensures |s| == 2 ==> Encoded(s) == [Digit(s[0] / 4), Digit(s[0] % 4 * 16 + s[1] / 16), Digit(s[1] % 16 * 4), PAD]
  {}

  method PutFour(t: array<char>, d: nat, c0: char, c1: char, c2: char, c3: char)
    requires d + 4 <= t.Length
    modifies t
    ensures t[..d + 4] == old(t[..d]) + [c0, c1, c2, c3]
  {
    t[d] := c0;
    t[d + 1] := c1;
    t[d + 2] := c2;
    t[d + 3] := c3;
  }

  /** ulibc_b64_ntop: succeeds exactly when the text and its terminator fit. */
  method Encode(s: seq<Byte>, t: array<char>) returns (r: int)
    modifies t
    ensures r == -1 <==> t.Length <= |Encoded(s)|
    ensures r != -1 ==> r == |Encoded(s)| && t[..r] == Encoded(s) && t[r] == '\0'
  {
    hide Encoded, Digit;
    var i, d := 0, 0;
    assert s[0..] == s;
    while |s| - i > 2
      invariant 0 <= i <= |s| && 0 <= d <= t.Length
      invariant Encoded(s) == t[..d] + Encoded(s[i..])
      decreases |s| - i
    {
      ghost var u := s[i..];
      EncodedGroup(u);
      assert u[3..] == s[i + 3..];
      if d + 4 > t.Length { return -1; }
      PutFour(t, d, Digit(s[i] / 4), Digit(s[i] % 4 * 16 + s[i + 1] / 16),
              Digit(s[i + 1] % 16 * 4 + s[i + 2] / 64), Digit(s[i + 2] % 64));
      i, d := i + 3, d + 4;
    }
    EncodedTail(s[i..]);
    if i < |s| {
      var b0 := s[i];
      var b1: Byte := if i + 1 < |s| then s[i + 1] else 0;
      if d + 4 > t.Length { return -1; }
      PutFour(t, d, Digit(b0 / 4), Digit(b0 % 4 * 16 + b1 / 16), if i + 1 == |s| then PAD else Digit(b1 % 16 * 4), PAD);
      d := d + 4;
    }
    if d >= t.Length { return -1; }
    ghost var text := t[..d];
    t[d] := '\0';
    assert t[..d] == text;
    return d;
  }

  // ----- Decoding ----------------------------------------------------------------------------------

  datatype End = Ended | Padded | Garbled

  /** The digits of a text up to its end or its first pad, and how they end. */
  datatype Text = Text(xs: seq<Sextet>, end: End)

  function Read(s: string): Text {
    if s == "" then Text([], Ended)
    else if IsSpace(s[0]) then Read(s[1..])
    else if s[0] == PAD then Text([], Padded)
    else if IndexOf(s[0]) == -1 then Text([], Garbled)
    else
      var rest := Read(s[1..]);
      Text([IndexOf(s[0])] + rest.xs, rest.end)
  }

  /** How many bytes `m` sextets complete. */
  function ByteCount(m: nat): nat {
    m / 4 * 3 + (if m % 4 == 2 then 1 else if m % 4 == 3 then 2 else 0)
  }

  function ByteAt(xs: seq<Sextet>, k: nat): Byte
    requires k < ByteCount(|xs|)
  {
    var q := k / 3 * 4;
    if k % 3 == 0 then (xs[q] as int) * 4 + xs[q + 1] / 16
    else if k % 3 == 1 then (xs[q + 1] as int) % 16 * 16 + xs[q + 2] / 4
    else (xs[q + 2] as int) % 4 * 64 + xs[q + 3]
  }

  function Bytes(xs: seq<Sextet>): (s: seq<Byte>)
    ensures |s| == ByteCount(|xs|)
  {
    seq(ByteCount(|xs|), k requires 0 <= k < ByteCount(|xs|) => ByteAt(xs, k))
  }

  /** The bits left over after the completed bytes, at the top of the next byte. */
  function LeftOver(xs: seq<Sextet>): Byte {
    if |xs| % 4 == 0 then 0
    else
      var x: int := xs[|xs| - 1];
      if |xs| % 4 == 1 then x * 4 else if |xs| % 4 == 2 then x % 16 * 16 else x % 4 * 64
  }

  /** The completed bytes fit the buffer, and the bits left over are dropped only if zero. */
  predicate FitsBuffer(xs: seq<Sextet>, size: nat) {
    && ByteCount(|xs|) <= size
    && (|xs| % 4 == 1 || LeftOver(xs) != 0 ==> ByteCount(|xs|) < size)
  }

  predicate Decodable(s: string, size: nat) {
    var t := Read(s);
    && !t.end.Garbled?
    && (if t.end.Padded? then |t.xs| % 4 >= 2 else |t.xs| % 4 == 0)
    && FitsBuffer(t.xs, size)
  }

  /** Bitwise or of two bytes. */
  function Or(a: nat, b: nat): nat
    decreases a + b
  {
    if a == 0 then b else if b == 0 then a
    else (if a % 2 == 1 || b % 2 == 1 then 1 else 0) + 2 * Or(a / 2, b / 2)
  }

  /** Or of numbers with no bit in common: `a` has its low bits clear, `b` only low bits. */
  lemma OrOfParts(a: Byte, b: Byte)
    ensures a % 4 == 0 && b < 4 ==> Or(a, b) == a + b
    ensures a % 16 == 0 && b < 16 ==> Or(a, b) == a + b
    ensures a % 64 == 0 && b < 64 ==> Or(a, b) == a + b
  {
    if a % 4 == 0 && b < 4 { OrAdds(a, b, 2); }
    if a % 16 == 0 && b < 16 { OrAdds(a, b, 4); }
    if a % 64 == 0 && b < 64 { OrAdds(a, b, 6); }
  }

  lemma {:induction false} OrAdds(a: nat, b: nat, n: nat)
    requires a % Pow2(n) == 0 && b < Pow2(n)
    ensures Or(a, b) == a + b
    decreases n
  {
    if a != 0 && b != 0 {
      HalfOfMultiple(a, Pow2(n - 1));
      OrAdds(a / 2, b / 2, n - 1);
    }
  }

  lemma HalfOfMultiple(a: nat, p: nat)
    requires p > 0 && a % (2 * p) == 0
    ensures a % 2 == 0 && (a / 2) % p == 0
  {
    var q := a / (2 * p);
    assert a == (2 * p) * q;
    assert a == 2 * (q * p);
    DivUnique(a / 2, p, q, 0);
  }

  lemma CountGrows(m: nat)
    ensures ByteCount(m + 1) == ByteCount(m) + (if m % 4 == 0 then 0 else 1)
  {}

  lemma ByteAtKeeps(xs: seq<Sextet>, x: Sextet, k: nat)
    requires k < ByteCount(|xs|)
    ensures k < ByteCount(|xs| + 1) && ByteAt(xs + [x], k) == ByteAt(xs, k)
  {
    CountGrows(|xs|);
  }

  lemma LastByte(xs: seq<Sextet>, x: Sextet)
    requires |xs| % 4 != 0
    ensures ByteCount(|xs|) < ByteCount(|xs| + 1)
    ensures ByteAt(xs + [x], ByteCount(|xs|)) ==
            LeftOver(xs) + (if |xs| % 4 == 1 then x / 16 else if |xs| % 4 == 2 then x / 4 else x)
  {
    var q, m := |xs| / 4, |xs| % 4;
    assert |xs| == q * 4 + m && ByteCount(|xs|) == q * 3 + (m - 1);
  }

  lemma OneMoreSextet(xs: seq<Sextet>, x: Sextet)
    ensures ByteCount(|xs| + 1) == ByteCount(|xs|) + (if |xs| % 4 == 0 then 0 else 1)
    ensures Bytes(xs + [x]) ==
            if |xs| % 4 == 0 then Bytes(xs)
            else Bytes(xs) + [LeftOver(xs) + (if |xs| % 4 == 1 then x / 16 else if |xs| % 4 == 2 then x / 4 else x)]
  {
    hide ByteAt, ByteCount, LeftOver;
    CountGrows(|xs|);
    forall k | 0 <= k < ByteCount(|xs|) ensures Bytes(xs + [x])[k] == Bytes(xs)[k] {
      ByteAtKeeps(xs, x, k);
    }
    if |xs| % 4 != 0 { LastByte(xs, x); }
  }

  lemma FitsPrefix(xs: seq<Sextet>, n: nat, size: nat)
    requires n <= |xs|
    ensures FitsBuffer(xs, size) ==> FitsBuffer(xs[..n], size)
    decreases |xs| - n
  {
    if n < |xs| {
      FitsPrefix(xs, n + 1, size);
      assert xs[..n + 1] == xs[..n] + [xs[n]];
      OneMoreSextet(xs[..n], xs[n]);
    } else {
      assert xs[..n] == xs;
    }
  }

  function Prepend(xs: seq<Sextet>, t: Text): Text {
    Text(xs + t.xs, t.end)
  }

  /** What the buffer holds once the digits `xs` have been taken in. */
  ghost predicate Holds(t: seq<Byte>, ti: int, st: int, xs: seq<Sextet>) {
    && FitsBuffer(xs, |t|)
    && ti == ByteCount(|xs|) && st == |xs| % 4
    && t[..ti] == Bytes(xs)
    && (st != 0 && ti < |t| ==> t[ti] == LeftOver(xs))
  }

  /** The bits digit `x` adds to the current byte, and those it leaves for the next. */
  function LowPart(x: Sextet, st: int): Byte {
    if st == 1 then x / 16 else if st == 2 then x / 4 else x
  }

  function HighPart(x: Sextet, st: int): Byte {
    var v: int := x;
    if st == 0 then v * 4 else if st == 1 then v % 16 * 16 else if st == 2 then v % 4 * 64 else 0
  }

  lemma NextDigit(t: seq<Byte>, ti: int, st: int, xs: seq<Sextet>, x: Sextet, t': seq<Byte>)
    requires Holds(t, ti, st, xs) && |t'| == |t| && ti < |t|
    requires t'[..ti] == t[..ti]
    requires st == 0 ==> t'[ti] == HighPart(x, 0)
    requires st != 0 ==> t'[ti] == t[ti] + LowPart(x, st) && (ti + 1 < |t| && st < 3 ==> t'[ti + 1] == HighPart(x, st))
    requires st != 0 && ti + 1 >= |t| ==> HighPart(x, st) == 0
    ensures Holds(t', if st == 0 then ti else ti + 1, (st + 1) % 4, xs + [x])
  {
    OneMoreSextet(xs, x);
    hide Bytes, ByteCount;
    if st != 0 { assert t'[..ti + 1] == t'[..ti] + [t'[ti]]; }
  }

  lemma NoRoom(t: seq<Byte>, ti: int, st: int, xs: seq<Sextet>, x: Sextet)
    requires Holds(t, ti, st, xs)
    requires ti >= |t| || (st != 0 && ti + 1 >= |t| && HighPart(x, st) != 0)
    ensures !FitsBuffer(xs + [x], |t|)
  {
    OneMoreSextet(xs, x);
    hide Bytes, ByteCount;
  }

  /** One digit, in each of the four states: it fails exactly when the buffer is too small. */
  method TakeDigit(x: Sextet, t: array<Byte>, ti: int, st: int, ghost xs: seq<Sextet>)
    returns (ok: bool, ti': int, st': int)
    requires Holds(t[..], ti, st, xs)
    modifies t
    ensures ok <==> FitsBuffer(xs + [x], t.Length)
    ensures ok ==> Holds(t[..], ti', st', xs + [x])
  {
    hide Bytes, ByteCount, Or, FitsBuffer, LeftOver;
    ghost var before := t[..];
    ghost var nextFits := FitsBuffer(xs + [x], t.Length);
    if ti >= t.Length {
      NoRoom(before, ti, st, xs, x);
      return false, ti, st;
    }
    ti', st' := ti, (st + 1) % 4;
    if st == 0 {
      t[ti] := HighPart(x, 0);
    } else {
      LeftOverIsHigh(xs, LowPart(x, st));
      t[ti] := Or(t[ti], LowPart(x, st));
      if st < 3 {
        if ti + 1 < t.Length {
          t[ti + 1] := HighPart(x, st);
        } else if HighPart(x, st) != 0 {
          NoRoom(before, ti, st, xs, x);
          return false, ti, st;
        }
      }
      ti' := ti + 1;
    }
    assert t[..][..ti] == before[..ti];
    NextDigit(before, ti, st, xs, x, t[..]);
    HoldsFits(t[..], ti', st', xs + [x]);
    ok := true;
  }

  lemma HoldsFits(t: seq<Byte>, ti: int, st: int, xs: seq<Sextet>)
    requires Holds(t, ti, st, xs)
    ensures FitsBuffer(xs, |t|) && 0 <= ti == |Bytes(xs)| <= |t| && t[..ti] == Bytes(xs)
  {}

  /** The bits left over sit above the bits the next digit adds. */
  lemma LeftOverIsHigh(xs: seq<Sextet>, low: Byte)
    requires |xs| % 4 != 0
    requires low < (if |xs| % 4 == 1 then 4 else if |xs| % 4 == 2 then 16 else 64)
    ensures Or(LeftOver(xs), low) == LeftOver(xs) + low <= 255
  {
    OrOfParts(LeftOver(xs), low);
  }

  lemma ReadStep(s: string, i: nat, xs: seq<Sextet>)
    requires i < |s| && Read(s) == Prepend(xs, Read(s[i..]))
    ensures var c := s[i];
            && (IsSpace(c) ==> Read(s) == Prepend(xs, Read(s[i + 1..])))
            && (!IsSpace(c) && c == PAD ==> Read(s) == Text(xs, Padded))
            && (!IsSpace(c) && c != PAD && IndexOf(c) == -1 ==> Read(s).end == Garbled)
            && (!IsSpace(c) && c != PAD && IndexOf(c) != -1 ==>
                  Read(s) == Prepend(xs + [IndexOf(c)], Read(s[i + 1..])))
  {
    assert s[i..][1..] == s[i + 1..];
  }

  lemma TooSmall(s: string, xs: seq<Sextet>, rest: Text, size: nat)
    requires Read(s) == Prepend(xs, rest) && !FitsBuffer(xs, size)
    ensures !Decodable(s, size)
  {
    FitsPrefix(Read(s).xs, |xs|, size);
    assert Read(s).xs[..|xs|] == xs;
  }

  /** ulibc_b64_pton. */
  method Decode(s: string, t: array<Byte>) returns (r: int)
    modifies t
    ensures r == -1 <==> !Decodable(s, t.Length)
    ensures r != -1 ==> r == |Bytes(Read(s).xs)| <= t.Length && t[..r] == Bytes(Read(s).xs)
  {
    hide IsSpace, IndexOf, Read, FitsBuffer, Bytes, ByteCount;
    var ti, st := 0, 0;
    var i, padded := 0, false;
    ghost var xs: seq<Sextet> := [];
    StartsEmpty(s, t[..]);
    while i < |s|
      invariant 0 <= i <= |s|
      invariant Holds(t[..], ti, st, xs)
      invariant Read(s) == Prepend(xs, Read(s[i..]))
    {
      var ch := s[i];
      ReadStep(s, i, xs);
      i := i + 1;
      if IsSpace(ch) { continue; }
      if ch == PAD { padded := true; break; }
      var x := IndexOf(ch);
      if x == -1 { return -1; }
      var ok;
      ok, ti, st := TakeDigit(x, t, ti, st, xs);
      xs := xs + [x];
      if !ok {
        TooSmall(s, xs, Read(s[i..]), t.Length);
        return -1;
      }
    }
    if !padded { EndOfText(s, xs); }
    if padded {
      if st == 0 || st == 1 { return -1; }
    } else if st != 0 {
      return -1;
    }
    HoldsFits(t[..], ti, st, xs);
    assert t[..][..ti] == t[..ti];
    return ti;
  }

  lemma StartsEmpty(s: string, t: seq<Byte>)
    ensures Read(s) == Prepend([], Read(s[0..])) && Holds(t, 0, 0, [])
  {
    assert s[0..] == s;
    assert [] + Read(s).xs == Read(s).xs;
  }

  lemma EndOfText(s: string, xs: seq<Sextet>)
    requires Read(s) == Prepend(xs, Read(s[|s|..]))
    ensures Read(s) == Text(xs, Ended)
  {}

  // ----- The round trip ------------------------------------------------------------------------------

  /** The text without white space. */
  function Stripped(s: string): string {
    if s == "" then "" else (if IsSpace(s[0]) then "" else [s[0]]) + Stripped(s[1..])
  }

  lemma {:induction false} ReadIgnoresSpace(s: string)
    ensures Read(s) == Read(Stripped(s))
  {
    if s != "" {
      ReadIgnoresSpace(s[1..]);
      assert "" + Stripped(s[1..]) == Stripped(s[1..]);
      if !IsSpace(s[0]) { assert Stripped(s)[1..] == Stripped(s[1..]); }
    }
  }

  lemma {:induction false} ReadDigits(xs: seq<Sextet>, tail: string)
    requires tail == "" || tail[0] == PAD
    ensures Read(Digits(xs) + tail) == Text(xs, if tail == "" then Ended else Padded)
  {
    if xs == [] {
      assert Digits(xs) + tail == tail;
    } else {
      IndexOfDigit(xs[0]);
      ReadDigits(xs[1..], tail);
      assert (Digits(xs) + tail)[1..] == Digits(xs[1..]) + tail;
    }
  }

  lemma BytesOfGroup(four: seq<Sextet>, xs: seq<Sextet>)
    requires |four| == 4
    ensures Bytes(four + xs) == Bytes(four) + Bytes(xs)
    ensures LeftOver(four + xs) == LeftOver(xs)
  {
    forall k | 0 <= k < |Bytes(xs)| ensures Bytes(four + xs)[3 + k] == Bytes(xs)[k] {
      assert (3 + k) / 3 * 4 == k / 3 * 4 + 4;
    }
  }

  lemma BytesOfFour(a: Byte, b: Byte, c: Byte)
    ensures Bytes([a / 4, a % 4 * 16 + b / 16, b % 16 * 4 + c / 64, c % 64]) == [a, b, c]
  {
    var xs: seq<Sextet> := [a / 4, a % 4 * 16 + b / 16, b % 16 * 4 + c / 64, c % 64];
    assert ByteAt(xs, 0) == a;
    assert ByteAt(xs, 1) == b;
    assert ByteAt(xs, 2) == c;
  }

  lemma BytesOfTail(a: Byte, b: Byte)
    ensures Bytes([a / 4, a % 4 * 16]) == [a] && LeftOver([a / 4, a % 4 * 16]) == 0
    ensures Bytes([a / 4, a % 4 * 16 + b / 16, b % 16 * 4]) == [a, b]
    ensures LeftOver([a / 4, a % 4 * 16 + b / 16, b % 16 * 4]) == 0
  {
    var two: seq<Sextet> := [a / 4, a % 4 * 16];
    assert ByteAt(two, 0) == a;
    var three: seq<Sextet> := [a / 4, a % 4 * 16 + b / 16, b % 16 * 4];
    assert ByteAt(three, 0) == a;
    assert ByteAt(three, 1) == b;
  }

  /** Splitting bytes into sextets loses nothing, and leaves no stray bits. */
  lemma {:induction false} SextetsKeepBytes(s: seq<Byte>)
    ensures Bytes(Sextets(s)) == s && LeftOver(Sextets(s)) == 0
  {
    hide Bytes, LeftOver;
    if |s| >= 3 {
      SextetsKeepBytes(s[3..]);
      var four: seq<Sextet> := [s[0] / 4, s[0] % 4 * 16 + s[1] / 16, s[1] % 16 * 4 + s[2] / 64, s[2] % 64];
      BytesOfGroup(four, Sextets(s[3..]));
      BytesOfFour(s[0], s[1], s[2]);
      assert s == [s[0], s[1], s[2]] + s[3..];
    } else if s == [] {
      NoBytes();
    } else {
      BytesOfTail(s[0], if |s| == 2 then s[1] else 0);
    }
  }

  lemma NoBytes()
    ensures Bytes([]) == [] && LeftOver([]) == 0
  {}

  /**
    Decoding an encoded text, with any white space put in, gives the bytes back; a buffer of
    exactly their number is enough, and no smaller one is.
   */
  lemma DecodeOfEncode(s: seq<Byte>, text: string, size: nat)
    requires Stripped(text) == Encoded(s)
    ensures Decodable(text, size) <==> size >= |s|
    ensures Bytes(Read(text).xs) == s
  {
    hide Read, Digits, Bytes, LeftOver;
    ReadIgnoresSpace(text);
    ReadDigits(Sextets(s), if |s| % 3 == 0 then "" else if |s| % 3 == 1 then "==" else "=");
    SextetsKeepBytes(s);
    assert |Bytes(Sextets(s))| == ByteCount(|Sextets(s)|);
  }

  /** Encoding then decoding through buffers. */
  method RoundTrip(s: seq<Byte>, text: array<char>, out: array<Byte>) returns (r: int)
    requires text.Length > (|s| + 2) / 3 * 4 && out.Length >= |s|
    modifies text, out
    ensures r == |s| && out[..r] == s
  {
    var n := Encode(s, text);
    EncodedHasNoSpace(s);
    DecodeOfEncode(s, text[..n], out.Length);
    r := Decode(text[..n], out);
  }

  lemma {:induction false} StrippedKeeps(t: string)
    requires forall i :: 0 <= i < |t| ==> !IsSpace(t[i])
    ensures Stripped(t) == t
  {
    if t != "" { StrippedKeeps(t[1..]); }
  }

  lemma EncodedHasNoSpace(s: seq<Byte>)
    ensures Stripped(Encoded(s)) == Encoded(s)
  {
    forall i | 0 <= i < |Encoded(s)| ensures !IsSpace(Encoded(s)[i]) {
      if i < |Sextets(s)| { IndexOfDigit(Sextets(s)[i]); }
    }
    StrippedKeeps(Encoded(s));
  }
}
