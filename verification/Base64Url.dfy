/** Unpadded base64url (section 5 of RFC 4648), with a decoder that skips foreign characters. */
module Base64Url {
  import opened Options

  type Byte = x: int | 0 <= x < 256

  type Sextet = x: int | 0 <= x < 64

  function CharOf(n: Sextet): char {
    if n < 26 then ('A' as int + n) as char
    else if n < 52 then ('a' as int + (n - 26)) as char
    else if n < 62 then ('0' as int + (n - 52)) as char
    else if n == 62 then '-' else '_'
  }

  /** The decoder also reads the two characters of the standard alphabet. */
  function SextetOf(c: char): Option<Sextet> {
    if 'A' <= c <= 'Z' then Some(c as int - 'A' as int)
    else if 'a' <= c <= 'z' then Some(c as int - 'a' as int + 26)
    else if '0' <= c <= '9' then Some(c as int - '0' as int + 52)
    else if c == '-' || c == '+' then Some(62)
    else if c == '_' || c == '/' then Some(63)
    else None
  }

  function High(x: Byte): Sextet { x / 4 }

  function Mid(x: Byte, y: Byte): Sextet { x % 4 * 16 + y / 16 }

  function Cross(y: Byte, z: Byte): Sextet { y % 16 * 4 + z / 64 }

  function Low(z: Byte): Sextet { z % 64 }

  function Pack(b: seq<Byte>): seq<Sextet> {
    if b == [] then []
    else if |b| == 1 then [High(b[0]), Mid(b[0], 0)]
    else if |b| == 2 then [High(b[0]), Mid(b[0], b[1]), Cross(b[1], 0)]
    else [High(b[0]), Mid(b[0], b[1]), Cross(b[1], b[2]), Low(b[2])] + Pack(b[3..])
  }

  function First(x: Sextet, y: Sextet): Byte { x * 4 + y / 16 }

  function Second(x: Sextet, y: Sextet): Byte { x % 16 * 16 + y / 4 }

  function Third(x: Sextet, y: Sextet): Byte { x % 4 * 64 + y }

  function Unpack(x: seq<Sextet>): seq<Byte> {
    if |x| < 2 then []
    else if |x| == 2 then [First(x[0], x[1])]
    else if |x| == 3 then [First(x[0], x[1]), Second(x[1], x[2])]
    else [First(x[0], x[1]), Second(x[1], x[2]), Third(x[2], x[3])] + Unpack(x[4..])
  }

  function Print(x: seq<Sextet>): string {
    if x == [] then "" else [CharOf(x[0])] + Print(x[1..])
  }

  function Scan(s: string): seq<Sextet> {
    if s == "" then [] else
    match SextetOf(s[0])
    case Some(n) => [n] + Scan(s[1..])
    case None => Scan(s[1..])
  }

  function Encode(b: seq<Byte>): string { Print(Pack(b)) }

  function Decode(s: string): seq<Byte> { Unpack(Scan(s)) }

  lemma {:induction false} ScanPrint(x: seq<Sextet>)
    ensures Scan(Print(x)) == x
  {
    if x != [] {
      ScanPrint(x[1..]);
    }
  }

  lemma ThreeBytes(x: Byte, y: Byte, z: Byte)
    ensures First(High(x), Mid(x, y)) == x
    ensures Second(Mid(x, y), Cross(y, z)) == y
    ensures Third(Cross(y, z), Low(z)) == z
  {
  }

  lemma UnpackNext(p: Sextet, q: Sextet, r: Sextet, s: Sextet, rest: seq<Sextet>)
    ensures Unpack([p, q, r, s] + rest) == [First(p, q), Second(q, r), Third(r, s)] + Unpack(rest)
  {
    hide First, Second, Third;
    assert ([p, q, r, s] + rest)[4..] == rest;
  }

  lemma UnpackFour(b: seq<Byte>)
    requires |b| >= 3
    ensures Unpack(Pack(b)) == [b[0], b[1], b[2]] + Unpack(Pack(b[3..]))
  {
    hide First, Second, Third, High, Mid, Cross, Low, Unpack;
    ThreeBytes(b[0], b[1], b[2]);
    UnpackNext(High(b[0]), Mid(b[0], b[1]), Cross(b[1], b[2]), Low(b[2]), Pack(b[3..]));
  }

  lemma {:induction false} UnpackPack(b: seq<Byte>)
    ensures Unpack(Pack(b)) == b
  {
    hide First, Second, Third, High, Mid, Cross, Low;
    if |b| >= 3 {
      UnpackPack(b[3..]);
      UnpackFour(b);
      assert b == [b[0], b[1], b[2]] + b[3..];
    } else if |b| == 2 {
      ThreeBytes(b[0], b[1], 0);
      assert b == [b[0], b[1]];
    } else if |b| == 1 {
      ThreeBytes(b[0], 0, 0);
      assert b == [b[0]];
    }
  }

  lemma RoundTrip(b: seq<Byte>)
    ensures Decode(Encode(b)) == b
  {
    ScanPrint(Pack(b));
    UnpackPack(b);
  }

  lemma {:induction false} NoDot(x: seq<Sextet>)
    ensures '.' !in Print(x) && |Print(x)| == |x|
  {
    if x != [] {
      NoDot(x[1..]);
    }
  }

  const UPPER: string := "ABCDEFGHIJKLMNOPQRSTUVWXYZ"
  const LOWER: string := "abcdefghijklmnopqrstuvwxyz"
  const NUMERALS: string := "0123456789"

  /** The characters of the URL-safe alphabet, by value. */
  const ALPHABET: string := UPPER + LOWER + NUMERALS + "-_"

  lemma UpperAt(n: nat)
    requires n < 26
    ensures |UPPER| == 26 && UPPER[n] as int == 'A' as int + n
  {
  }

  lemma LowerAt(n: nat)
    requires n < 26
    ensures |LOWER| == 26 && LOWER[n] as int == 'a' as int + n
  {
  }

  lemma NumeralAt(n: nat)
    requires n < 10
    ensures |NUMERALS| == 10 && NUMERALS[n] as int == '0' as int + n
  {
  }

  lemma InFour(a: string, b: string, c: string, d: string, n: nat)
    requires |a| == |b| == 26 && |c| == 10 && |d| == 2 && n < 64
    ensures (a + b + c + d)[n] == if n < 26 then a[n] else if n < 52 then b[n - 26] else if n < 62 then c[n - 52]
              else d[n - 62]
  {
  }

  /** Each value is written as its place in the alphabet. */
  lemma AlphabetIs(n: Sextet)
    ensures |ALPHABET| == 64 && CharOf(n) == ALPHABET[n]
  {
    UpperAt(0);
    LowerAt(0);
    NumeralAt(0);
    InFour(UPPER, LOWER, NUMERALS, "-_", n);
    if n < 26 {
      UpperAt(n);
    } else if n < 52 {
      LowerAt(n - 26);
    } else if n < 62 {
      NumeralAt(n - 52);
    }
  }

  /** Three bytes and the four characters written for them are one 24-bit number, high end first. */
  lemma SameBits(x: Byte, y: Byte, z: Byte)
    ensures 0x10000 * x + 0x100 * y + z == 0x40000 * High(x) + 0x1000 * Mid(x, y) + 0x40 * Cross(y, z) + Low(z)
  {
  }

  /** Each character is its alphabet position's; the standard alphabet's two others are read as well. */
  lemma ReadsAlphabet(n: Sextet)
    ensures SextetOf(ALPHABET[n]) == Some(n) && SextetOf('+') == Some(62) && SextetOf('/') == Some(63)
  {
    AlphabetIs(n);
  }
}
