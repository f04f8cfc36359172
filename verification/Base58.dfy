/** Base 58 encoding of byte strings, and the form with a checksum. */
module Base58 {
  import opened Bytes
  import opened Radix

  // ----------------------------------------------------------- buffer bounds

  lemma PowDouble(b: nat, e: nat)
    ensures Pow(b, 2 * e) == Pow(b, e) * Pow(b, e)
  {
    PowAdd(b, e, e);
  }

  lemma Powers58()
    ensures Pow(58, 6) == 38068692544 && Pow(58, 7) == 2207984167552 && Pow(58, 8) == 128063081718016
    ensures Pow(58, 11) == 24986644000165537792
  {
    assert Pow(58, 3) == 58 * (58 * 58);
    PowDouble(58, 3);
    assert Pow(58, 7) == 58 * Pow(58, 6);
    assert Pow(58, 8) == 58 * Pow(58, 7);
    PowAdd(58, 8, 3);
  }

  lemma Powers256()
    ensures Pow(256, 4) == 0x1_0000_0000 && Pow(256, 5) == 0x100_0000_0000 && Pow(256, 8) == 0x1_0000_0000_0000_0000
  {
    assert Pow(256, 3) == 256 * (256 * 256);
    assert Pow(256, 4) == 256 * Pow(256, 3);
    assert Pow(256, 5) == 256 * Pow(256, 4);
    PowDouble(256, 4);
  }

  lemma Ratio52()
    ensures Pow(58, 71) <= Pow(256, 52)
  {
    Powers58();
    Powers256();
    hide Pow;
    PowDouble(58, 8);
    PowDouble(58, 16);
    PowDouble(58, 32);
    PowAdd(58, 64, 7);
    PowDouble(256, 8);
    PowDouble(256, 16);
    PowAdd(256, 32, 16);
    PowAdd(256, 48, 4);
  }

  /** 138 digits of base 58 hold 100 bytes. */
  lemma Ratio138()
    ensures Pow(256, 100) <= Pow(58, 138)
  {
    Powers58();
    Powers256();
    hide Pow;
    PowMonoBase(Pow(256, 8), Pow(58, 11), 12);
    PowMul(256, 8, 12);
    PowMul(58, 11, 12);
    PowAdd(256, 96, 4);
    PowAdd(58, 132, 6);
    MulMono(Pow(256, 96), Pow(58, 132), Pow(256, 4), Pow(58, 6));
  }

  /** 733 bytes hold 1000 digits of base 58. */
  lemma Ratio733()
    ensures Pow(58, 1000) <= Pow(256, 733)
  {
    Powers58();
    Powers256();
    Ratio52();
    hide Pow;
    PowMonoBase(Pow(58, 71), Pow(256, 52), 14);
    PowMul(58, 71, 14);
    PowMul(256, 52, 14);
    PowAdd(58, 994, 6);
    PowAdd(256, 728, 5);
    MulMono(Pow(58, 994), Pow(256, 728), Pow(58, 6), Pow(256, 5));
  }

  /** The encoder's buffer always suffices. */
  lemma EncodeFits(n: nat)
    ensures Pow(256, n) < Pow(58, n * 138 / 100 + 1)
  {
    var size := n * 138 / 100 + 1;
    Ratio138();
    hide Pow;
    PowMul(58, n, 138);
    PowMul(58, size, 100);
    Fits(256, 58, 100, 138, n, size, n * 138, size * 100);
  }

  /** The decoder's buffer always suffices. */
  lemma DecodeFits(n: nat)
    ensures Pow(58, n) < Pow(256, n * 733 / 1000 + 1)
  {
    var size := n * 733 / 1000 + 1;
    Ratio733();
    hide Pow;
    PowMul(256, n, 733);
    PowMul(256, size, 1000);
    Fits(58, 256, 1000, 733, n, size, n * 733, size * 1000);
  }

  // --------------------------------------------------------------- the alphabet

  type Digit58 = d: int | 0 <= d < 58

  /** The letters in order: 1-9, A-H, J-N, P-Z, a-k, m-z. */
  function Letter(d: Digit58): char {
    (if d < 9 then '1' as int + d
     else if d < 17 then 'A' as int + (d - 9)
     else if d < 22 then 'J' as int + (d - 17)
     else if d < 33 then 'P' as int + (d - 22)
     else if d < 44 then 'a' as int + (d - 33)
     else 'm' as int + (d - 44)) as char
  }

  const ALPHABET := "123456789" + "ABCDEFGH" + "JKLMN" + "PQRSTUVWXYZ" + "abcdefghijk" + "mnopqrstuvwxyz"

  lemma ShortRuns(d: int)
    ensures 0 <= d < 9 ==> "123456789"[d] as int == '1' as int + d
    ensures 0 <= d < 8 ==> "ABCDEFGH"[d] as int == 'A' as int + d
    ensures 0 <= d < 5 ==> "JKLMN"[d] as int == 'J' as int + d
  {
    assert 0 <= d < 9 ==>
             d == 0 || d == 1 || d == 2 || d == 3 || d == 4 || d == 5 || d == 6 || d == 7 || d == 8;
  }

  lemma LongRuns(d: int)
    ensures 0 <= d < 11 ==> "PQRSTUVWXYZ"[d] as int == 'P' as int + d
    ensures 0 <= d < 11 ==> "abcdefghijk"[d] as int == 'a' as int + d
    ensures 0 <= d < 14 ==> "mnopqrstuvwxyz"[d] as int == 'm' as int + d
  {
    assert 0 <= d < 14 ==>
             || d == 0 || d == 1 || d == 2 || d == 3 || d == 4 || d == 5 || d == 6
             || d == 7 || d == 8 || d == 9 || d == 10 || d == 11 || d == 12 || d == 13;
  }

  /** The letters are those of the alphabet in its order. */
  lemma LetterIs(d: Digit58)
    ensures |ALPHABET| == 58 && Letter(d) == ALPHABET[d]
  {
    ShortRuns(d);
    ShortRuns(d - 9);
    ShortRuns(d - 17);
    LongRuns(d - 22);
    LongRuns(d - 33);
    LongRuns(d - 44);
  }

  /** Where strchr finds a character from place k on; 58 when it finds none. */
  function Find(c: char, k: nat): (i: nat)
    requires k <= 58
    ensures k <= i <= 58
    ensures i < 58 ==> Letter(i) == c
    decreases 58 - k
  {
    if k == 58 || Letter(k) == c then k else Find(c, k + 1)
  }

  predicate IsLetter(c: char) {
    Find(c, 0) < 58
  }

  ghost predicate Letters(s: string) {
    forall i | 0 <= i < |s| :: IsLetter(s[i])
  }

  lemma {:induction false} FindLetter(i: nat, k: nat)
    requires k <= i < 58
    ensures Find(Letter(i), k) == i
    decreases i - k
  {
    if k < i {
      FindLetter(i, k + 1);
    }
  }

  function Spell(d: seq<int>): string
    requires Digits(58, d)
  {
    seq(|d|, i requires 0 <= i < |d| => Letter(d[i]))
  }

  function Read(s: string): (d: seq<int>)
    requires Letters(s)
    ensures Digits(58, d) && |d| == |s|
  {
    seq(|s|, i requires 0 <= i < |s| => Find(s[i], 0))
  }

  lemma ReadSpell(d: seq<int>)
    requires Digits(58, d)
    ensures Letters(Spell(d)) && Read(Spell(d)) == d
  {
    forall i | 0 <= i < |d|
      ensures Find(Spell(d)[i], 0) == d[i]
    {
      FindLetter(d[i], 0);
    }
  }

  lemma SpellRead(s: string)
    requires Letters(s)
    ensures Spell(Read(s)) == s
  {
  }

  // ---------------------------------------------------------------- the meaning

  /** The text of a byte string: one '1' per leading zero byte, then the number. */
  function Encoded(b: seq<Byte>): string {
    ConvertDigits(256, 58, b);
    Spell(Convert(256, 58, b))
  }

  predicate IsSpace(c: char) {
    c in " \t\n\r" || c == 11 as char || c == 12 as char
  }

  /** Space is the blank and the five control characters from tab to carriage return. */
  lemma SpaceIs(c: char)
    ensures IsSpace(c) <==> c == ' ' || 9 <= c as int <= 13
  {
  }

  ghost predicate Spaces(s: string) {
    forall i | 0 <= i < |s| :: IsSpace(s[i])
  }

  /** What a C string holds: the characters before the first NUL. */
  function CString(s: string): (t: string)
    ensures |t| <= |s| && t == s[..|t|]
    ensures |t| < |s| ==> s[|t|] == 0 as char
    ensures (0 as char) !in t
  {
    if s == [] || s[0] == 0 as char then [] else [s[0]] + CString(s[1..])
  }

  function TrimFront(s: string): string {
    if s != [] && IsSpace(s[0]) then TrimFront(s[1..]) else s
  }

  function TrimBack(s: string): string {
    if s != [] && IsSpace(s[|s| - 1]) then TrimBack(s[..|s| - 1]) else s
  }

  /** A text without the space around it. */
  function Trim(s: string): string {
    TrimBack(TrimFront(s))
  }

  lemma {:induction false} TrimFrontRange(s: string) returns (i: nat)
    ensures i <= |s| && TrimFront(s) == s[i..] && Spaces(s[..i])
    ensures i < |s| ==> !IsSpace(s[i])
    decreases |s|
  {
    hide IsSpace;
    if s != [] && IsSpace(s[0]) {
      var k := TrimFrontRange(s[1..]);
      i := k + 1;
      assert s[..i] == [s[0]] + s[1..][..k];
    } else {
      i := 0;
    }
  }

  lemma {:induction false} TrimBackRange(s: string) returns (j: nat)
    ensures j <= |s| && TrimBack(s) == s[..j] && Spaces(s[j..])
    ensures j > 0 ==> !IsSpace(s[j - 1])
    decreases |s|
  {
    hide IsSpace;
    if s != [] && IsSpace(s[|s| - 1]) {
      var front := s[..|s| - 1];
      j := TrimBackRange(front);
      assert s[j..] == front[j..] + [s[|s| - 1]];
      assert front[..j] == s[..j];
      hide Spaces;
      OneMoreSpace(front[j..], s[|s| - 1]);
    } else {
      j := |s|;
    }
  }

  lemma OneMoreSpace(s: string, c: char)
    requires Spaces(s) && IsSpace(c)
    ensures Spaces(s + [c])
  {
  }

  /** What is trimmed is space, and neither end of what is left is. */
  lemma TrimRange(s: string) returns (i: nat, j: nat)
    ensures i <= j <= |s| && Trim(s) == s[i..j]
    ensures forall k | 0 <= k < i || j <= k < |s| :: IsSpace(s[k])
    ensures i < j ==> !IsSpace(s[i]) && !IsSpace(s[j - 1])
  {
    hide IsSpace;
    i := TrimFrontRange(s);
    var m := TrimBackRange(s[i..]);
    j := i + m;
    assert s[i..][..m] == s[i..j];
    forall k | 0 <= k < i || j <= k < |s|
      ensures IsSpace(s[k])
    {
      if k < i {
        assert s[..i][k] == s[k];
      } else {
        assert s[i..][m..][k - j] == s[k];
      }
    }
  }

  /** Trimming leaves alone the part between the outermost other characters. */
  lemma TrimIs(s: string, a: nat, b: nat)
    requires a <= b <= |s|
    requires forall k | 0 <= k < a || b <= k < |s| :: IsSpace(s[k])
    requires a < b ==> !IsSpace(s[a]) && !IsSpace(s[b - 1])
    ensures Trim(s) == s[a..b]
  {
    hide IsSpace;
    var i, j := TrimRange(s);
  }

  lemma NotTrimmed(s: string, k: nat)
    requires k < |s| && !IsSpace(s[k]) && !IsLetter(s[k])
    ensures !Letters(Trim(s))
  {
    hide IsSpace, IsLetter;
    var i, j := TrimRange(s);
    assert s[i..j][k - i] == s[k];
  }

  lemma SpaceInside(s: string, a: nat, k: nat, b: nat)
    requires a < k < b < |s| && !IsSpace(s[a]) && !IsSpace(s[b]) && IsSpace(s[k])
    ensures !Letters(Trim(s))
  {
    SpaceIsNoLetter(s[k]);
    hide IsSpace, IsLetter;
    var i, j := TrimRange(s);
    assert s[i..j][k - i] == s[k];
  }

  lemma SpaceIsNoLetter(c: char)
    ensures IsSpace(c) || c == 0 as char ==> !IsLetter(c)
  {
  }

  // ------------------------------------------------------------ in-place steps

  lemma FewDigits(b: nat, x: int, n: nat)
    ensures Value(b, []) == 0 && Value(b, [x]) == x
    ensures Pow(b, 0) == 1 && Pow(b, n + 1) == b * Pow(b, n)
  {
    assert [x][..0] == [];
    assert 0 * b == 0;
  }

  /** a := a * mul + c on big-endian digits; the carry is used up. */
  method MulAdd(a: array<Byte>, mul: nat, base: nat, c: nat)
    requires 2 <= base <= 256 && Digits(base, a[..])
    requires Value(base, a[..]) * mul + c < Pow(base, a.Length)
    modifies a
    ensures Digits(base, a[..])
    ensures Value(base, a[..]) == old(Value(base, a[..])) * mul + c
  {
    hide Value, Pow;
    ghost var was := a[..];
    ghost var n := a.Length;
    var carry := c;
    var i := a.Length;
    assert a[n..] == was[n..] == [];
    FewDigits(base, 0, 0);
    while i > 0
      invariant 0 <= i <= n && carry >= 0
      invariant a[..i] == was[..i] && Digits(base, a[..])
      invariant Value(base, a[i..]) + carry * Pow(base, n - i) == Value(base, was[i..]) * mul + c
    {
      i := i - 1;
      ghost var rest := a[i + 1..];
      assert a[i] == a[..i + 1][i] == was[i];
      var sum := carry + mul * a[i];
      CarryStep(base, mul, c, was[i], carry, sum, rest, was[i + 1..]);
      a[i] := sum % base;
      carry := sum / base;
      assert a[i..] == [a[i]] + rest;
      assert was[i..] == [was[i]] + was[i + 1..];
    }
    assert a[0..] == a[..] && was[0..] == was;
    ValueBound(base, a[..]);
    CarryGone(Value(base, a[..]), carry, Pow(base, n));
    assert carry == 0;
  }

  lemma CarryGone(v: int, carry: int, p: int)
    requires 0 <= v < p && carry >= 0 && v + carry * p < p
    ensures carry == 0
  {
    Steps(0, carry, p);
  }

  lemma CarryStep(base: nat, mul: nat, c: nat, was: int, carry: int, sum: int, rest: seq<int>, rest': seq<int>)
    requires |rest| == |rest'| && base > 0 && was >= 0 && carry >= 0
    requires sum == carry + mul * was
    requires Value(base, rest) + carry * Pow(base, |rest|) == Value(base, rest') * mul + c
    ensures sum / base >= 0 && 0 <= sum % base < base
    ensures Value(base, [sum % base] + rest) + sum / base * Pow(base, |rest| + 1) ==
              Value(base, [was] + rest') * mul + c
  {
    hide Value, Pow;
    ValueConcat(base, [sum % base], rest);
    ValueConcat(base, [was], rest');
    FewDigits(base, sum % base, |rest|);
    FewDigits(base, was, |rest|);
    Distribute(base, mul, was, sum % base, carry, sum / base, Pow(base, |rest|), Value(base, rest'));
    MulMono(0, mul, 0, was);
  }

  lemma Distribute(base: int, mul: int, was: int, now: int, before: int, carry: int, p: int, v: int)
    requires before + mul * was == carry * base + now
    ensures now * p + carry * (base * p) == before * p + (was * p) * mul
    ensures (was * p + v) * mul == (was * p) * mul + v * mul
  {
    assert (before + mul * was) * p == (carry * base + now) * p;
    assert (before + mul * was) * p == before * p + (mul * was) * p;
    assert (carry * base + now) * p == (carry * base) * p + now * p;
  }

  method SkipZeros(a: array<Byte>) returns (k: nat)
    ensures k <= a.Length && a[k..] == Strip(a[..])
  {
    k := 0;
    assert a[..] == a[0..];
    while k < a.Length && a[k] == 0
      invariant k <= a.Length && Strip(a[..]) == Strip(a[k..])
    {
      assert a[k..][1..] == a[k + 1..];
      k := k + 1;
    }
  }

  /** One more digit keeps the number below the capacity of all of them. */
  lemma Room(b: nat, d: seq<int>, a: nat, p: nat)
    requires b >= 2 && Digits(b, d) && a <= p < |d|
    ensures Value(b, d[a..p + 1]) == Value(b, d[a..p]) * b + d[p]
    ensures 0 <= Value(b, d[a..p + 1]) < Pow(b, |d| - a)
  {
    assert d[a..p + 1][..p - a] == d[a..p];
    ValueBound(b, d[a..p + 1]);
    if p + 1 < |d| {
      PowMonoExp(b, p + 1 - a, |d| - a);
    }
  }

  /** Conversion, once the leading zeros have been counted. */
  lemma ConvertParts(b: nat, c: nat, d: seq<int>, k: nat)
    requires b >= 2 && c >= 2 && Digits(b, d) && k <= |d|
    requires d[..k] == ZeroDigits(k) && (k < |d| ==> d[k] != 0)
    ensures Value(b, d[k..]) >= 0
    ensures Convert(b, c, d) == ZeroDigits(k) + ToDigits(c, Value(b, d[k..]))
  {
    hide Value;
    assert d == ZeroDigits(k) + d[k..];
    PadZeros(b, k, d[k..]);
    ValueBound(b, d);
  }

  // ---------------------------------------------------------- encode and decode

  lemma EncodedParts(b: seq<Byte>, zeroes: nat)
    requires zeroes <= |b| && b[..zeroes] == ZeroDigits(zeroes) && (zeroes < |b| ==> b[zeroes] != 0)
    ensures Value(256, b[zeroes..]) >= 0
    ensures Digits(58, ToDigits(58, Value(256, b[zeroes..])))
    ensures Encoded(b) == seq(zeroes, _ => '1') + Spell(ToDigits(58, Value(256, b[zeroes..])))
  {
    hide Value, ToDigits;
    ConvertParts(256, 58, b, zeroes);
    ToDigitsMeaning(58, Value(256, b[zeroes..]));
  }

  /** The bytes from `zeroes` on, as base 58 digits in a buffer of the computed size. */
  method EncodeNumber(b: seq<Byte>, zeroes: nat) returns (b58: array<Byte>)
    requires zeroes <= |b|
    ensures fresh(b58) && b58.Length == (|b| - zeroes) * 138 / 100 + 1
    ensures Digits(58, b58[..]) && Value(58, b58[..]) == Value(256, b[zeroes..])
  {
    hide Value, Pow;
    b58 := new Byte[(|b| - zeroes) * 138 / 100 + 1](_ => 0);
    var p := zeroes;
    NoDigits(58, b58[..]);
    FewDigits(256, 0, 0);
    EncodeFits(|b| - zeroes);
    assert b[zeroes..zeroes] == [];
    while p < |b|
      invariant zeroes <= p <= |b| && Digits(58, b58[..])
      invariant Value(58, b58[..]) == Value(256, b[zeroes..p])
    {
      Room(256, b, zeroes, p);
      MulAdd(b58, 256, 58, b[p]);
      p := p + 1;
    }
    assert b[zeroes..|b|] == b[zeroes..];
  }

  method EncodeBase58(b: seq<Byte>) returns (str: string)
    ensures str == Encoded(b)
  {
    hide Value, Pow, ToDigits, Strip, Encoded, Letter;
    var zeroes := 0;
    while zeroes < |b| && b[zeroes] == 0
      invariant zeroes <= |b| && b[..zeroes] == ZeroDigits(zeroes)
    {
      zeroes := zeroes + 1;
    }
    var b58 := EncodeNumber(b, zeroes);
    var it := SkipZeros(b58);
    StripIsToDigits(58, b58[..]);
    EncodedParts(b, zeroes);
    str := seq(zeroes, _ => '1');
    while it < b58.Length
      invariant it <= b58.Length
      invariant str + Spell(b58[it..]) == Encoded(b)
    {
      assert Spell(b58[it..]) == [Letter(b58[it])] + Spell(b58[it + 1..]);
      str := str + [Letter(b58[it])];
      it := it + 1;
    }
    assert str + Spell([]) == str;
  }

  lemma {:induction false} NoDigits(b: nat, d: seq<int>)
    requires forall i | 0 <= i < |d| :: d[i] == 0
    ensures Value(b, d) == 0
    decreases |d|
  {
    if d != [] {
      NoDigits(b, d[..|d| - 1]);
    }
  }

  lemma ReadOne(c: char)
    ensures IsLetter('1') && !IsSpace('1')
    ensures Find(c, 0) == 0 <==> c == '1'
  {
  }

  lemma RoomToRead(t: string, a: nat, p: nat)
    requires a <= p < |t| && Letters(t[a..p]) && IsLetter(t[p])
    ensures Letters(t[a..p + 1])
    ensures Value(58, Read(t[a..p + 1])) == Value(58, Read(t[a..p])) * 58 + Find(t[p], 0)
    ensures 0 <= Value(58, Read(t[a..p + 1])) < Pow(58, |t| - a)
  {
    hide IsLetter, Find;
    assert t[a..p + 1] == t[a..p] + [t[p]];
    var d := Read(t[a..p + 1]);
    assert d[..p - a] == Read(t[a..p]);
    ValueBound(58, d);
    if p + 1 < |t| {
      PowMonoExp(58, p + 1 - a, |t| - a);
    }
  }

  /** The bytes put together by the decoder are the ones whose text was read. */
  lemma DecodedParts(core: string, zeroes: nat, tail: seq<int>)
    requires Letters(core) && zeroes <= |core|
    requires forall k | 0 <= k < zeroes :: core[k] == '1'
    requires zeroes < |core| ==> core[zeroes] != '1'
    requires Value(58, Read(core[zeroes..])) >= 0
    requires tail == ToDigits(256, Value(58, Read(core[zeroes..])))
    ensures Digits(256, ZeroDigits(zeroes) + tail)
    ensures Encoded(ZeroDigits(zeroes) + tail) == core
  {
    ReadOne('1');
    if zeroes < |core| {
      ReadOne(core[zeroes]);
    }
    hide Value, ToDigits, Find, IsLetter, Letter;
    var d := Read(core);
    assert d[zeroes..] == Read(core[zeroes..]);
    assert d[..zeroes] == ZeroDigits(zeroes);
    ConvertParts(58, 256, d, zeroes);
    ConvertBack(58, 256, d);
    SpellRead(core);
  }

  datatype Option<T> = None | Some(value: T)

  lemma NothingRead(s: string)
    requires s == []
    ensures Letters(s) && Value(58, Read(s)) == 0
  {
    FewDigits(58, 0, 0);
  }

  /** Ones and then letters that do not start with one. */
  lemma CoreOf(t: string, start: nat, first: nat, end: nat)
    requires start <= first <= end <= |t| && Letters(t[first..end])
    requires forall k | start <= k < first :: t[k] == '1'
    requires first < end ==> t[first] != '1'
    ensures var core, zeroes := t[start..end], first - start;
            && Letters(core) && (forall k | 0 <= k < zeroes :: core[k] == '1')
            && core[zeroes..] == t[first..end] && (zeroes < |core| ==> core[zeroes] != '1')
  {
    ReadOne('1');
    hide IsLetter;
    var core, zeroes := t[start..end], first - start;
    assert core[zeroes..] == t[first..end];
    forall k | 0 <= k < |core| ensures IsLetter(core[k]) {
      assert k >= zeroes ==> core[k] == core[zeroes..][k - zeroes];
    }
  }

  /** The text from `first` on to the next space or bad character, as bytes in a buffer of
      the computed size. */
  method DecodeNumber(t: string, first: nat) returns (ok: bool, p: nat, b256: array<Byte>)
    requires first <= |t|
    ensures fresh(b256) && b256.Length == (|t| - first) * 733 / 1000 + 1
    ensures first <= p <= |t| && Letters(t[first..p])
    ensures forall k | first <= k < p :: IsLetter(t[k]) && !IsSpace(t[k])
    ensures ok <==> p == |t| || IsSpace(t[p])
    ensures !ok ==> !IsLetter(t[p])
    ensures Value(256, b256[..]) == Value(58, Read(t[first..p]))
  {
    hide Value, Pow, IsSpace, IsLetter, Find, Letters, Read;
    p := first;
    b256 := new Byte[(|t| - first) * 733 / 1000 + 1](_ => 0);
    NoDigits(256, b256[..]);
    NothingRead(t[first..first]);
    DecodeFits(|t| - first);
    while p < |t| && !IsSpace(t[p])
      invariant first <= p <= |t|
      invariant forall k | first <= k < p :: IsLetter(t[k]) && !IsSpace(t[k])
      invariant Letters(t[first..p])
      invariant Value(256, b256[..]) == Value(58, Read(t[first..p]))
    {
      if !IsLetter(t[p]) {
        return false, p, b256;
      }
      RoomToRead(t, first, p);
      MulAdd(b256, 58, 256, Find(t[p], 0));
      p := p + 1;
    }
    return true, p, b256;
  }

  method DecodeBase58(s: string) returns (r: Option<seq<Byte>>)
    ensures r.Some? <==> Letters(Trim(CString(s)))
    ensures r.Some? ==> Encoded(r.value) == Trim(CString(s))
  {
    hide Value, Pow, ToDigits, Strip, Encoded, Letter, IsSpace, IsLetter, Trim, Find;
    var t := CString(s);
    var p := 0;
    while p < |t| && IsSpace(t[p])
      invariant p <= |t| && forall k | 0 <= k < p :: IsSpace(t[k])
    {
      p := p + 1;
    }
    var start, zeroes := p, 0;
    ReadOne('1');
    while p < |t| && t[p] == '1'
      invariant p <= |t| && p == start + zeroes
      invariant forall k | start <= k < p :: t[k] == '1'
    {
      zeroes := zeroes + 1;
      p := p + 1;
    }
    ghost var first := p;
    var ok, b256;
    ok, p, b256 := DecodeNumber(t, p);
    if !ok {
      NotTrimmed(t, p);
      return None;
    }
    ghost var end := p;
    while p < |t| && IsSpace(t[p])
      invariant end <= p <= |t|
      invariant forall k | end <= k < p :: IsSpace(t[k])
    {
      p := p + 1;
    }
    if p < |t| {
      SpaceInside(t, start, end, p);
      return None;
    }
    TrimIs(t, start, end);
    CoreOf(t, start, first, end);
    var it := SkipZeros(b256);
    StripIsToDigits(256, b256[..]);
    DecodedParts(t[start..end], zeroes, b256[it..]);
    return Some(seq(zeroes, _ => 0) + b256[it..]);
  }

  lemma EncodedIsText(b: seq<Byte>)
    ensures Letters(Encoded(b)) && Trim(CString(Encoded(b))) == Encoded(b)
  {
    ConvertDigits(256, 58, b);
    ReadSpell(Convert(256, 58, b));
    var s := Encoded(b);
    forall k | 0 <= k < |s|
      ensures !IsSpace(s[k]) && s[k] != 0 as char
    {
      SpaceIsNoLetter(s[k]);
    }
    hide IsSpace, Encoded;
    assert s[..|s|] == s;
    TrimIs(s, 0, |s|);
  }

  /** Different byte strings have different texts. */
  lemma EncodedInjective(a: seq<Byte>, b: seq<Byte>)
    requires Encoded(a) == Encoded(b)
    ensures a == b
  {
    ConvertBack(256, 58, a);
    ConvertBack(256, 58, b);
    ReadSpell(Convert(256, 58, a));
    ReadSpell(Convert(256, 58, b));
  }

  /** Every string of letters is the text of some bytes. */
  lemma LettersAreEncoded(s: string) returns (b: seq<Byte>)
    requires Letters(s)
    ensures Encoded(b) == s
  {
    ConvertBack(58, 256, Read(s));
    b := Convert(58, 256, Read(s));
    SpellRead(s);
  }

  /** Decoding undoes encoding on every byte string. */
  method DecodeOfEncode(b: seq<Byte>) returns (r: Option<seq<Byte>>)
    ensures r == Some(b)
  {
    hide Encoded, Trim, CString;
    var text := EncodeBase58(b);
    EncodedIsText(b);
    r := DecodeBase58(text);
    EncodedInjective(b, r.value);
  }

  /** Encoding undoes decoding on every string of letters. */
  method EncodeOfDecode(s: string) returns (t: string)
    requires Letters(s)
    ensures t == s
  {
    var b := LettersAreEncoded(s);
    EncodedIsText(b);
    hide Encoded, Trim, CString;
    var r := DecodeBase58(s);
    t := EncodeBase58(r.value);
  }

  // ------------------------------------------------------------- with a checksum

  type Hash256 = h: seq<Byte> | |h| == 32 witness seq(32, _ => 0)

  function EncodedCheck(hash: seq<Byte> -> Hash256, b: seq<Byte>): string {
    Encoded(b + hash(b)[..4])
  }

  method EncodeBase58Check(hash: seq<Byte> -> Hash256, b: seq<Byte>) returns (str: string)
    ensures str == EncodedCheck(hash, b)
  {
    str := EncodeBase58(b + hash(b)[..4]);
  }

  /** Succeeds exactly on the texts of some bytes with their checksum, and finds those. */
  method DecodeBase58Check(hash: seq<Byte> -> Hash256, s: string) returns (r: Option<seq<Byte>>)
    ensures forall b: seq<Byte> :: r == Some(b) <==> EncodedCheck(hash, b) == Trim(CString(s))
  {
    hide Encoded, Trim, CString;
    var d := DecodeBase58(s);
    if d.None? || |d.value| < 4 {
      r := None;
    } else {
      var n := |d.value| - 4;
      var payload, sum := d.value[..n], d.value[n..];
      assert d.value == payload + sum;
      r := if hash(payload)[..4] == sum then Some(payload) else None;
    }
    forall b: seq<Byte> | EncodedCheck(hash, b) == Trim(CString(s))
      ensures r == Some(b)
    {
      EncodedIsText(b + hash(b)[..4]);
      EncodedInjective(b + hash(b)[..4], d.value);
    }
  }
}
