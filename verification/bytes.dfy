/** Bytes, C strings and the integer and text encodings that the programs share. */
module Bytes {

  /** A stored byte. C's plain `char` reads it as signed on gcc/x86: see SignedChar. */
  type byte = b: int | 0 <= b < 256

  function SignedChar(b: byte): (c: int)
    ensures -128 <= c < 128 && (c == b || c == b - 256)
  {
    if b < 128 then b else b - 256
  }

  function Zeros(n: nat): (s: seq<byte>)
    ensures |s| == n && forall i :: 0 <= i < n ==> s[i] == 0
  {
    seq(n, _ => 0)
  }

  /** `data` written over the front of `under`. */
  function Overlay(data: seq<byte>, under: seq<byte>): (s: seq<byte>)
    requires |data| <= |under|
    ensures |s| == |under|
  {
    seq(|under|, i requires 0 <= i < |under| => if i < |data| then data[i] else under[i])
  }

  /** The bytes of `s` from one index to another. */
  function Part(s: seq<byte>, from: nat, to: nat): (p: seq<byte>)
    requires from <= to <= |s|
    ensures |p| == to - from
  {
    seq(to - from, i requires 0 <= i < to - from => s[from + i])
  }

  lemma Associative<T>(a: seq<T>, b: seq<T>, c: seq<T>)
    ensures a + b + c == a + (b + c)
  {
  }

  // ---- NUL-terminated text ----

  /** strlen: the index of the first NUL, or the whole length when there is none. */
  function StrLen(s: seq<byte>): (n: nat)
    ensures n <= |s|
  {
    NulFrom(s, 0)
  }

  function NulFrom(s: seq<byte>, from: nat): (n: nat)
    requires from <= |s|
    ensures from <= n <= |s|
    decreases |s| - from
  {
    if from == |s| || s[from] == 0 then from else NulFrom(s, from + 1)
  }

  lemma {:induction false} NulFromMeans(s: seq<byte>, from: nat)
    requires from <= |s|
    ensures NulFrom(s, from) < |s| ==> s[NulFrom(s, from)] == 0
    ensures forall i :: from <= i < NulFrom(s, from) ==> s[i] != 0
    decreases |s| - from
  {
    if from < |s| && s[from] != 0 {
      NulFromMeans(s, from + 1);
    }
  }

  lemma StrLenMeans(s: seq<byte>)
    ensures StrLen(s) < |s| ==> s[StrLen(s)] == 0
    ensures forall i :: 0 <= i < StrLen(s) ==> s[i] != 0
  {
    NulFromMeans(s, 0);
  }

  predicate NulFree(s: seq<byte>) {
    StrLen(s) == |s|
  }

  lemma NulFreeMeans(s: seq<byte>)
    ensures NulFree(s) <==> forall i :: 0 <= i < |s| ==> s[i] != 0
  {
    StrLenMeans(s);
  }

  lemma TextIsNulFree(s: seq<byte>)
    ensures NulFree(CText(s))
  {
    StrLenMeans(s);
    NulFreeMeans(CText(s));
  }

  lemma NulFreeAppend(a: seq<byte>, b: seq<byte>)
    ensures NulFree(a + b) <==> NulFree(a) && NulFree(b)
  {
    NulFreeMeans(a);
    NulFreeMeans(b);
    NulFreeMeans(a + b);
    assert forall i :: 0 <= i < |a| ==> (a + b)[i] == a[i];
    assert forall i :: 0 <= i < |b| ==> (a + b)[|a| + i] == b[i];
  }

  /** The text a C string function sees in `s`. */
  function CText(s: seq<byte>): (t: seq<byte>) {
    s[..StrLen(s)]
  }

  /** StrLen is the only index with the defining property of strlen. */
  lemma StrLenUnique(s: seq<byte>, n: nat)
    requires n <= |s| && (n < |s| ==> s[n] == 0)
    requires forall i :: 0 <= i < n ==> s[i] != 0
    ensures StrLen(s) == n && CText(s) == s[..n]
  {
    NulFromMeans(s, 0);
  }

  lemma CTextOfNulFree(s: seq<byte>)
    requires NulFree(s)
    ensures CText(s) == s
  {
    assert s[..|s|] == s;
  }

  lemma CTextAppend(a: seq<byte>, b: seq<byte>)
    requires NulFree(a)
    ensures CText(a + b) == a + CText(b)
  {
    var n := |a| + StrLen(b);
    StrLenMeans(b);
    NulFreeMeans(a);
    assert forall i :: |a| <= i < n ==> (a + b)[i] == b[i - |a|];
    StrLenUnique(a + b, n);
    assert (a + b)[..n] == a + CText(b);
  }

  lemma TextAppended(file: seq<byte>, s: seq<byte>)
    requires NulFree(file)
    ensures NulFree(file + CText(s))
  {
    TextIsNulFree(s);
    NulFreeAppend(file, CText(s));
  }

  lemma CTextTerminated(t: seq<byte>, rest: seq<byte>)
    requires NulFree(t)
    ensures CText(t + [0] + rest) == t
  {
    assert t + [0] + rest == t + ([0] + rest);
    CTextAppend(t, [0] + rest);
  }

  // ---- Integers in bytes ----

  function BigEndian(s: seq<byte>): (v: nat) {
    if s == [] then 0 else 256 * BigEndian(s[..|s| - 1]) + s[|s| - 1]
  }

  function LittleEndian(s: seq<byte>): (v: nat) {
    if s == [] then 0 else s[0] + 256 * LittleEndian(s[1..])
  }

  function Reverse(s: seq<byte>): (r: seq<byte>)
    ensures |r| == |s|
    ensures forall i :: 0 <= i < |s| ==> r[i] == s[|s| - 1 - i]
  {
    seq(|s|, i requires 0 <= i < |s| => s[|s| - 1 - i])
  }

  function Pow256(n: nat): (p: nat)
    ensures p > 0
  {
    if n == 0 then 1 else 256 * Pow256(n - 1)
  }

  lemma {:induction false} LittleOfReverse(s: seq<byte>)
    ensures LittleEndian(Reverse(s)) == BigEndian(s)
  {
    if s != [] {
      assert Reverse(s)[1..] == Reverse(s[..|s| - 1]);
      LittleOfReverse(s[..|s| - 1]);
    }
  }

  lemma {:induction false} LittleZeroPadded(s: seq<byte>, n: nat)
    ensures LittleEndian(s + Zeros(n)) == LittleEndian(s)
    decreases |s| + n
  {
    if s != [] {
      assert (s + Zeros(n))[1..] == s[1..] + Zeros(n);
      LittleZeroPadded(s[1..], n);
    } else if n > 0 {
      assert (s + Zeros(n))[1..] == s + Zeros(n - 1);
      LittleZeroPadded(s, n - 1);
    } else {
      assert s + Zeros(n) == [];
    }
  }

  lemma {:induction false} BigEndianBound(s: seq<byte>)
    ensures BigEndian(s) < Pow256(|s|)
  {
    if s != [] {
      BigEndianBound(s[..|s| - 1]);
    }
  }

  const TWO63: int := 0x8000_0000_0000_0000
  const TWO64: int := 0x1_0000_0000_0000_0000

  /** An 8-byte two's-complement word read as `long long`. */
  function LongLong(u: nat): (v: int) {
    if u < TWO63 then u else u - TWO64
  }

  /** Two's complement: of all numbers that differ from the word by a multiple of 2^64, the one
      that fits into a signed 64-bit integer. */
  lemma LongLongExact(u: nat, v: int)
    requires u < 0x1_0000_0000_0000_0000
    ensures v == LongLong(u) <==>
            && -0x8000_0000_0000_0000 <= v < 0x8000_0000_0000_0000
            && (v - u) % 0x1_0000_0000_0000_0000 == 0
  {
  }

  /** What copying `s` reversed into a zeroed 8-byte little-endian integer loads: its
      big-endian value, which the signed integer holds unless its sign bit is set. */
  lemma ReverseThenLoad(s: seq<byte>)
    requires |s| <= 8
    ensures LittleEndian(Reverse(s) + Zeros(8 - |s|)) == BigEndian(s) < TWO64
    ensures LongLong(BigEndian(s)) == BigEndian(s) <==> |s| <= 7 || s[0] < 128
  {
    LittleZeroPadded(Reverse(s), 8 - |s|);
    LittleOfReverse(s);
    BigEndianBound(s);
    Pow256Small();
    if |s| <= 7 {
      Pow256Monotone(|s|, 7);
    } else {
      SignBit(s);
    }
  }

  lemma SignBit(s: seq<byte>)
    requires |s| == 8
    ensures BigEndian(s) < TWO63 <==> s[0] < 128
  {
    Pow256Small();
    TopByte(s);
    BigEndianBound(s[1..]);
    var p, low := Pow256(7), BigEndian(s[1..]);
    assert TWO63 == 128 * p;
    assert s[0] < 128 ==> s[0] * p <= 127 * p;
    assert s[0] >= 128 ==> s[0] * p >= 128 * p;
  }

  lemma Pow256Small()
    ensures Pow256(7) == 0x100_0000_0000_0000 && Pow256(8) == TWO64
  {
    assert Pow256(2) == 0x1_0000;
    assert Pow256(4) == 0x1_0000_0000;
    assert Pow256(6) == 0x1_0000_0000_0000;
  }

  lemma {:induction false} Pow256Monotone(a: nat, b: nat)
    requires a <= b
    ensures Pow256(a) <= Pow256(b)
  {
    if a < b {
      Pow256Monotone(a, b - 1);
    }
  }

  lemma {:induction false} TopByte(s: seq<byte>)
    requires s != []
    ensures BigEndian(s) == s[0] * Pow256(|s| - 1) + BigEndian(s[1..])
  {
    var init := s[..|s| - 1];
    if |s| == 1 {
      assert init == [] && s[1..] == [];
    } else {
      TopByte(init);
      assert init[1..] == s[1..][..|s| - 2];
      Shifted(s[0], Pow256(|s| - 2), BigEndian(init[1..]), s[|s| - 1]);
    }
  }

  lemma Shifted(top: nat, p: nat, low: nat, next: nat)
    ensures 256 * (top * p + low) + next == top * (256 * p) + (256 * low + next)
  {
  }

  // ---- printf conversions ----

  /** "%d" of a natural number, in ASCII. */
  function Digits(n: nat): (s: seq<byte>)
    ensures |s| >= 1
  {
    if n < 10 then [48 + n] else Digits(n / 10) + [48 + n % 10]
  }

  lemma {:induction false} DigitsOnly(n: nat)
    ensures forall c :: c in Digits(n) ==> 48 <= c <= 57
  {
    if n >= 10 {
      DigitsOnly(n / 10);
    }
  }

  /** "%d" / "%lld". */
  function Decimal(x: int): (s: seq<byte>)
    ensures |s| >= 1
  {
    if x < 0 then [45] + Digits(-x) else Digits(x)
  }

  lemma DecimalOnly(x: int)
    ensures forall c :: c in Decimal(x) ==> c == 45 || 48 <= c <= 57
  {
    DigitsOnly(if x < 0 then -x else x);
  }

  lemma DecimalIsText(x: int)
    ensures NulFree(Decimal(x))
  {
    var s := Decimal(x);
    DecimalOnly(x);
    assert forall i :: 0 <= i < |s| ==> s[i] in s;
    NulFreeMeans(s);
  }

  /** ASCII digits, without a leading zero unless there is only one. */
  predicate IsNumeral(s: seq<byte>) {
    && s != []
    && (forall i :: 0 <= i < |s| ==> '0' as int <= s[i] <= '9' as int)
    && (|s| > 1 ==> s[0] != '0' as int)
  }

  lemma {:induction false} DigitsAreNumeral(n: nat)
    ensures IsNumeral(Digits(n)) && (n > 0 ==> Digits(n)[0] != '0' as int)
  {
    if n >= 10 {
      DigitsAreNumeral(n / 10);
    }
  }

  lemma NumeralFront(s: seq<byte>)
    requires IsNumeral(s) && |s| > 1
    ensures var front, last := s[..|s| - 1], s[|s| - 1];
            && IsNumeral(front) && front[0] != '0' as int && '0' as int <= last <= '9' as int
            && s == front + [last]
  {
  }

  lemma OneDigit(s: seq<byte>)
    requires IsNumeral(s) && |s| == 1
    ensures ReadDigits(s) == s[0] - '0' as int && s == Digits(ReadDigits(s))
  {
    assert s[..0] == [];
  }

  lemma AppendDigit(n: nat, c: byte)
    requires n > 0 && '0' as int <= c <= '9' as int
    ensures Digits(10 * n + (c - '0' as int)) == Digits(n) + [c]
  {
  }

  lemma {:induction false} NumeralIsDigits(s: seq<byte>)
    requires IsNumeral(s)
    ensures ReadDigits(s) >= 0 && s == Digits(ReadDigits(s))
    ensures s[0] != '0' as int ==> ReadDigits(s) > 0
  {
    if |s| == 1 {
      OneDigit(s);
    } else {
      var front, last := s[..|s| - 1], s[|s| - 1];
      NumeralFront(s);
      NumeralIsDigits(front);
      AppendDigit(ReadDigits(front), last);
    }
  }

  /** The text of "%d" is the one numeral that reads as the number. */
  lemma DigitsExact(n: nat, s: seq<byte>)
    ensures s == Digits(n) <==> IsNumeral(s) && ReadDigits(s) == n
  {
    DigitsAreNumeral(n);
    DigitsRead(n);
    if IsNumeral(s) {
      NumeralIsDigits(s);
    }
  }

  /** What a numeral reads as, digit by digit. */
  lemma OneMoreDigit(s: seq<byte>, c: byte)
    ensures ReadDigits([]) == 0 && ReadDigits(s + [c]) == 10 * ReadDigits(s) + (c - '0' as int)
  {
    assert (s + [c])[..|s|] == s;
  }

  /** "%lld": a numeral, behind a minus sign if the number is negative. */
  lemma DecimalExact(x: int, s: seq<byte>)
    ensures s == Decimal(x) <==>
            if x < 0 then s != [] && s[0] == '-' as int && IsNumeral(s[1..]) && ReadDigits(s[1..]) == -x
            else IsNumeral(s) && ReadDigits(s) == x
  {
    if x < 0 {
      NegativeExact(-x, s);
    } else {
      DigitsExact(x, s);
    }
  }

  lemma NegativeExact(n: nat, s: seq<byte>)
    ensures s == ['-' as int] + Digits(n) <==>
            s != [] && s[0] == '-' as int && IsNumeral(s[1..]) && ReadDigits(s[1..]) == n
  {
    BehindFirst(45, Digits(n));
    DigitsExact(n, Digits(n));
    if s != [] {
      DigitsExact(n, s[1..]);
      FirstApart(s);
    }
  }

  lemma FirstApart(s: seq<byte>)
    requires s != []
    ensures s == [s[0]] + s[1..]
  {
  }

  function HexDigit(d: nat): (c: byte)
    requires d < 16
    ensures 48 <= c <= 57 || 97 <= c <= 102
  {
    if d < 10 then 48 + d else 87 + d
  }

  /** "%02x". */
  function Hex2(b: byte): (s: seq<byte>) {
    [HexDigit(b / 16), HexDigit(b % 16)]
  }

  /** Two hexadecimal digits, in lower case. */
  lemma Hex2Exact(b: byte)
    ensures Hex2(b) == ["0123456789abcdef"[b / 16] as int, "0123456789abcdef"[b % 16] as int]
  {
  }

  // ---- ... and the readers that undo them ----

  function ReadDigits(s: seq<byte>): (n: int) {
    if s == [] then 0 else 10 * ReadDigits(s[..|s| - 1]) + s[|s| - 1] - 48
  }

  function ReadDecimal(s: seq<byte>): (x: int) {
    if s != [] && s[0] == 45 then -ReadDigits(s[1..]) else ReadDigits(s)
  }

  function ReadHexDigit(c: byte): (d: int) {
    if c < 97 then c - 48 else c - 87
  }

  function ReadHex2(s: seq<byte>): (b: int)
    requires |s| == 2
  {
    16 * ReadHexDigit(s[0]) + ReadHexDigit(s[1])
  }

  lemma {:induction false} DigitsRead(n: nat)
    ensures ReadDigits(Digits(n)) == n
  {
    var s := Digits(n);
    if n < 10 {
      assert s[..|s| - 1] == [];
    } else {
      DigitsRead(n / 10);
      assert s[..|s| - 1] == Digits(n / 10);
    }
  }

  lemma BehindFirst(b: byte, s: seq<byte>)
    ensures ([b] + s)[1..] == s
  {
  }

  lemma DecimalReads(x: int)
    ensures ReadDecimal(Decimal(x)) == x
  {
    if x < 0 {
      BehindFirst(45, Digits(-x));
      DigitsRead(-x);
    } else {
      DigitsOnly(x);
      assert Digits(x)[0] in Digits(x);
      DigitsRead(x);
    }
  }

  lemma Hex2Reads(b: byte)
    ensures ReadHex2(Hex2(b)) == b
  {
  }

  // ---- Separated fields ----

  function Join(parts: seq<seq<byte>>, sep: byte): (s: seq<byte>)
    requires parts != []
  {
    if |parts| == 1 then parts[0] else parts[0] + [sep] + Join(parts[1..], sep)
  }

  lemma JoinFirst(front: seq<byte>, p: seq<byte>, rest: seq<seq<byte>>, sep: byte)
    requires rest != []
    ensures front + Join([p] + rest, sep) == front + p + [sep] + Join(rest, sep)
  {
    assert ([p] + rest)[1..] == rest;
    Associative(front, p + [sep], Join(rest, sep));
    Associative(front, p, [sep]);
  }

  lemma JoinTwo(a: seq<byte>, b: seq<byte>, sep: byte)
    ensures Join([a, b], sep) == a + [sep] + b
  {
    assert [a, b][1..] == [b];
  }

  lemma JoinFour(a: seq<byte>, b: seq<byte>, c: seq<byte>, d: seq<byte>, sep: byte)
    ensures Join([a, b, c, d], sep) == a + [sep] + b + [sep] + c + [sep] + d
  {
    assert [a] + [b, c, d] == [a, b, c, d] && [b] + [c, d] == [b, c, d];
    assert [] + a == a && [] + Join([a, b, c, d], sep) == Join([a, b, c, d], sep);
    JoinFirst([], a, [b, c, d], sep);
    JoinFirst(a + [sep], b, [c, d], sep);
    JoinTwo(c, d, sep);
    Associative(a + [sep] + b + [sep], c + [sep], d);
    Associative(a + [sep] + b + [sep], c, [sep]);
  }

  function Split(s: seq<byte>, sep: byte): (parts: seq<seq<byte>>)
    ensures parts != []
  {
    if s == [] then [[]]
    else if s[0] == sep then [[]] + Split(s[1..], sep)
    else var rest := Split(s[1..], sep); [[s[0]] + rest[0]] + rest[1..]
  }

  lemma {:induction false} SplitPlain(p: seq<byte>, sep: byte)
    requires sep !in p
    ensures Split(p, sep) == [p]
  {
    if p != [] {
      SplitPlain(p[1..], sep);
      assert [p[0]] + p[1..] == p;
    }
  }

  lemma {:induction false} SplitPrefix(p: seq<byte>, sep: byte, rest: seq<byte>)
    requires sep !in p
    ensures Split(p + [sep] + rest, sep) == [p] + Split(rest, sep)
  {
    var s := p + [sep] + rest;
    if p == [] {
      assert s[1..] == rest;
    } else {
      SplitPrefix(p[1..], sep, rest);
      assert s[1..] == p[1..] + [sep] + rest;
      assert [p[0]] + p[1..] == p;
    }
  }

  /** Splitting undoes joining when no field contains the separator. */
  lemma {:induction false} SplitJoin(parts: seq<seq<byte>>, sep: byte)
    requires parts != []
    requires forall i :: 0 <= i < |parts| ==> sep !in parts[i]
    ensures Split(Join(parts, sep), sep) == parts
  {
    if |parts| == 1 {
      SplitPlain(parts[0], sep);
    } else {
      SplitJoin(parts[1..], sep);
      SplitPrefix(parts[0], sep, Join(parts[1..], sep));
      assert [parts[0]] + parts[1..] == parts;
    }
  }

  // ---- Writing text in place ----

  /** sprintf(dst + at, "%s", text) */
  method PrintText(dst: array<byte>, at: nat, text: seq<byte>)
    requires at + |text| < dst.Length
    modifies dst
    ensures dst[..] == old(dst[..at]) + text + [0] + old(dst[at + |text| + 1..])
  {
    forall i | 0 <= i < |text| {
      dst[at + i] := text[i];
    }
    dst[at + |text|] := 0;
  }

  /** The tail that follows every sprintf of the decoders: it finds the terminator and writes
      it again. */
  method PrintResult(resultado: array<byte>, text: seq<byte>)
    requires |text| < resultado.Length && NulFree(text)
    modifies resultado
    ensures CText(resultado[..]) == text
  {
    PrintText(resultado, 0, text);
    ghost var rest := old(resultado[|text| + 1..]);
    assert resultado[..] == text + [0] + rest;
    CTextTerminated(text, rest);
    var len := StrLen(resultado[..]);
    assert len == |CText(resultado[..])| == |text|;
    resultado[len] := 0;
    assert resultado[..] == text + [0] + rest;
  }

  /** Copies `len` bytes of `msg` reversed into a scratch array and loads them into a zeroed
      8-byte integer of a little-endian machine. */
  method LoadReversed(msg: array<byte>, at: nat, len: nat) returns (v: int)
    requires len <= 8 && at + len <= msg.Length
    ensures v == LongLong(BigEndian(msg[at..at + len]))
  {
    var auxArray := new byte[len](_ => 0);
    for aux := 0 to len
      invariant forall i :: 0 <= i < aux ==> auxArray[i] == msg[at + len - 1 - i]
    {
      auxArray[aux] := msg[at + len - 1 - aux];
    }
    v := LongLong(LittleEndian(auxArray[..] + Zeros(8 - len)));
    assert auxArray[..] == Reverse(msg[at..at + len]);
    ReverseThenLoad(msg[at..at + len]);
  }
}
