// Printing numbers: itoa's digit loop and in-place reversal, and printf's %#x.
module Numbers {
  import opened Bytes
  import opened CStrings
  import opened Division

  const ZERO: byte := 48
  const UINT32 := 0x1_0000_0000

  // The lookup string 0-9A-Z, and back.
  function Digit(d: nat): (c: byte)
    requires d < 36
    ensures c != NUL && Value(c) == d
  {
    if d < 10 then 48 + d else 55 + d
  }

  function Value(c: byte): int { if c < 65 then c - 48 else c - 55 }

  predicate IsDigit(c: byte, radix: nat) { (48 <= c < 58 || 65 <= c < 91) && Value(c) < radix }

  // What a string of digits denotes.
  function Parse(s: seq<byte>, radix: nat): int
  {
    if s == [] then 0 else Parse(s[..|s| - 1], radix) * radix + Value(s[|s| - 1])
  }

  // A numeral: digits of the radix, no leading zero unless it is zero itself.
  predicate IsNumeral(s: seq<byte>, radix: nat)
  {
    s != [] && (forall c :: c in s ==> IsDigit(c, radix)) && (s[0] == ZERO ==> |s| == 1)
  }

  // The numeral of v.
  function Numeral(v: nat, radix: nat): (s: seq<byte>)
    requires 2 <= radix <= 36
    ensures s != [] && NUL !in s
  {
    if v < radix then [Digit(v)] else QuotientSmaller(v, radix); Numeral(v / radix, radix) + [Digit(v % radix)]
  }

  lemma QuotientSmaller(v: nat, radix: nat)
    requires 2 <= radix && 0 < v
    ensures v / radix < v && 2 * (v / radix) <= v
  {
    Divided(v, radix);
    TimesRadix(v / radix, radix);
  }

  lemma TimesRadix(q: nat, radix: nat)
    requires 2 <= radix
    ensures 2 * q <= q * radix
  {
    assert q * radix == q * 2 + q * (radix - 2);
  }

  lemma Divided(v: nat, radix: nat)
    requires 0 < radix
    ensures v == (v / radix) * radix + v % radix
  {
  }

  // Round trip: the numeral parses back to the value.
  lemma {:induction false} NumeralParses(v: nat, radix: nat)
    requires 2 <= radix <= 36
    ensures Parse(Numeral(v, radix), radix) == v
  {
    if v < radix {
      ParseSnoc([], Digit(v), radix);
      assert [] + [Digit(v)] == [Digit(v)] && Parse([], radix) == 0;
    } else {
      var q, d := v / radix, v % radix;
      QuotientSmaller(v, radix);
      NumeralParses(q, radix);
      Divided(v, radix);
      ParseSnoc(Numeral(q, radix), Digit(d), radix);
    }
  }

  // It has no leading zero and only digits of the radix.
  lemma {:induction false} NumeralIsNumeral(v: nat, radix: nat)
    requires 2 <= radix <= 36
    ensures IsNumeral(Numeral(v, radix), radix) && (v > 0 ==> Numeral(v, radix)[0] != ZERO)
  {
    if v >= radix {
      QuotientSmaller(v, radix);
      LargeQuotient(v, radix);
      NumeralIsNumeral(v / radix, radix);
      AppendDigit(Numeral(v / radix, radix), v % radix, radix);
    }
  }

  lemma AppendDigit(s: seq<byte>, d: nat, radix: nat)
    requires d < radix <= 36 && IsNumeral(s, radix) && s[0] != ZERO
    ensures IsNumeral(s + [Digit(d)], radix) && (s + [Digit(d)])[0] != ZERO
  {
  }

  lemma ParseSnoc(s: seq<byte>, c: byte, radix: nat)
    ensures Parse(s + [c], radix) == Parse(s, radix) * radix + Value(c)
  {
    assert (s + [c])[..|s|] == s;
  }

  // And it is the only numeral that does.
  lemma {:induction false} NumeralUnique(s: seq<byte>, radix: nat)
    requires 2 <= radix <= 36 && IsNumeral(s, radix)
    ensures 0 <= Parse(s, radix) && s == Numeral(Parse(s, radix), radix)
    ensures s[0] != ZERO ==> Parse(s, radix) > 0
  {
    var n := |s| - 1;
    assert s[n] in s && s == s[..n] + [s[n]];
    if n > 0 {
      assert forall c :: c in s[..n] ==> c in s;
      NumeralUnique(s[..n], radix);
      NumeralSnoc(Parse(s[..n], radix), Value(s[n]), radix);
    } else {
      assert Parse([], radix) == 0 && s[..0] == [];
    }
  }

  lemma NumeralSnoc(q: nat, d: nat, radix: nat)
    requires 2 <= radix <= 36 && 0 < q && d < radix
    ensures Numeral(q * radix + d, radix) == Numeral(q, radix) + [Digit(d)]
  {
    DivMod(q, d, radix);
    Larger(0, q, radix);
  }

  function Pow2(n: nat): nat { if n == 0 then 1 else 2 * Pow2(n - 1) }

  // A numeral is no longer, in any radix, than it is in binary.
  lemma {:induction false} NumeralAtMostBits(v: nat, radix: nat, n: nat)
    requires 2 <= radix <= 36 && 0 < n && v < Pow2(n)
    ensures |Numeral(v, radix)| <= n
  {
    assert Pow2(1) == 2;
    if v >= radix {
      QuotientSmaller(v, radix);
      NumeralAtMostBits(v / radix, radix, n - 1);
    }
  }

  lemma {:induction false} HexDigits(v: nat, n: nat)
    requires 0 < n && v < Pow2(4 * n)
    ensures |Numeral(v, 16)| <= n
  {
    assert Pow2(4 * n) == 2 * Pow2(4 * n - 1) == 4 * Pow2(4 * n - 2) == 8 * Pow2(4 * n - 3) == 16 * Pow2(4 * (n - 1));
    if v >= 16 {
      assert Pow2(0) == 1;
      HexDigits(v / 16, n - 1);
    }
  }

  lemma Pow2Of32()
    ensures Pow2(32) == UINT32
  {
    assert Pow2(8) == 256;
    assert Pow2(16) == 65536;
    assert Pow2(24) == 16777216;
  }

  function Reversed(s: seq<byte>): (r: seq<byte>)
    ensures |r| == |s|
  {
    seq(|s|, i requires 0 <= i < |s| => s[|s| - 1 - i])
  }

  // strrev: the string that starts at s[at] is reversed in place.
  method Strrev(s: array<byte>, at: nat)
    requires at <= s.Length && NUL in s[at..]
    modifies s
    ensures NUL in s[at..] && Text(s[at..]) == Reversed(old(Text(s[at..])))
    ensures s[..at] == old(s[..at])
  {
    ghost var text := Text(s[at..]);
    var len := Strlen(s, at);
    assert s[at..][len] == NUL;
    assert text == s[at..at + len];
    ReverseRange(s, at, len);
    assert s[at + len..][0] == NUL;
    IsString(s, at, Reversed(text));
  }

  // A NUL-free stretch with a NUL behind it is a string.
  lemma IsString(s: array<byte>, at: nat, text: seq<byte>)
    requires at + |text| < s.Length && s[at..at + |text|] == text && s[at + |text|] == NUL && NUL !in text
    ensures NUL in s[at..] && Text(s[at..]) == text
  {
    assert s[at..][|text|] == NUL && s[at..][..|text|] == text;
    TextIs(s[at..], |text|);
  }

  method ReverseRange(s: array<byte>, at: nat, len: nat)
    requires at + len <= s.Length
    modifies s
    ensures s[at..at + len] == Reversed(old(s[at..at + len]))
    ensures s[..at] == old(s[..at]) && s[at + len..] == old(s[at + len..])
  {
    var beg, end := 0, len as int - 1;
    ghost var was, now := s[at..at + len], s[at..at + len];
    while beg < end
      invariant 0 <= beg <= end + 2 && beg + end == len - 1
      invariant now == s[at..at + len]
      invariant forall k :: 0 <= k < beg || end < k < len ==> now[k] == was[len - 1 - k]
      invariant forall k :: beg <= k <= end ==> now[k] == was[k]
      invariant s[..at] == old(s[..at]) && s[at + len..] == old(s[at + len..])
    {
      var tmp := s[at + end];
      now := now[end := s[at + beg]][beg := tmp];
      s[at + end] := s[at + beg];
      s[at + beg] := tmp;
      beg := beg + 1;
      end := end - 1;
    }
  }

  // The digits still to be written: none for 0.
  function HighDigits(v: nat, radix: nat): seq<byte>
    requires 2 <= radix <= 36
  {
    if v == 0 then [] else Numeral(v, radix)
  }

  lemma HighDigitsSnoc(v: nat, radix: nat)
    requires 2 <= radix <= 36 && 0 < v
    ensures v / radix < v && HighDigits(v, radix) == HighDigits(v / radix, radix) + [Digit(v % radix)]
  {
    QuotientSmaller(v, radix);
    if v < radix {
      SmallQuotient(v, radix);
    } else {
      LargeQuotient(v, radix);
    }
  }

  lemma SmallQuotient(v: nat, radix: nat)
    requires v < radix
    ensures v / radix == 0 && v % radix == v
  {
    SameQuotient(0, v, v / radix, v % radix, radix);
  }

  lemma LargeQuotient(v: nat, radix: nat)
    requires 0 < radix <= v
    ensures v / radix > 0
  {
  }

  lemma ReversedSnoc(s: seq<byte>, c: byte)
    ensures Reversed(s + [c]) == [c] + Reversed(s)
  {
  }

  lemma MoveDigit(v: nat, low: seq<byte>, radix: nat)
    requires 2 <= radix <= 36 && 0 < v
    ensures v / radix < v && |HighDigits(v, radix)| == |HighDigits(v / radix, radix)| + 1
    ensures HighDigits(v / radix, radix) + Reversed(low + [Digit(v % radix)]) == HighDigits(v, radix) + Reversed(low)
  {
    HighDigitsSnoc(v, radix);
    ReversedSnoc(low, Digit(v % radix));
    var high := HighDigits(v / radix, radix);
    assert high + ([Digit(v % radix)] + Reversed(low)) == high + [Digit(v % radix)] + Reversed(low);
  }

  // The loop of itoa: digits come out in reverse.
  method WriteDigits(value: nat, buf: array<byte>, at: nat, radix: nat) returns (newbuf: nat)
    requires 0 < value < UINT32 && 2 <= radix <= 36
    requires at + 33 <= buf.Length
    modifies buf
    ensures at <= newbuf <= at + 32 && buf[at..newbuf] == Reversed(Numeral(value, radix))
    ensures buf[..at] == old(buf[..at])
  {
    Pow2Of32();
    NumeralAtMostBits(value, radix, 32);
    newbuf := at;
    var newval: nat := value;
    assert [] == buf[at..at] && Reversed([]) == [];
    while newval > 0
      invariant at <= newbuf && |HighDigits(newval, radix)| + newbuf == at + |Numeral(value, radix)|
      invariant HighDigits(newval, radix) + Reversed(buf[at..newbuf]) == Numeral(value, radix)
      invariant buf[..at] == old(buf[..at])
    {
      ghost var prefix := buf[..newbuf];
      newval := WriteDigit(newval, buf, at, newbuf, radix);
      assert buf[..at] == prefix[..at];
      newbuf := newbuf + 1;
    }
    ReversedTwice(buf[at..newbuf]);
  }

  method WriteDigit(newval: nat, buf: array<byte>, ghost at: nat, newbuf: nat, radix: nat) returns (rest: nat)
    requires 0 < newval && 2 <= radix <= 36 && at <= newbuf < buf.Length
    modifies buf
    ensures rest < newval && |HighDigits(newval, radix)| == |HighDigits(rest, radix)| + 1
    ensures HighDigits(rest, radix) + Reversed(buf[at..newbuf + 1])
            == HighDigits(newval, radix) + Reversed(old(buf[at..newbuf]))
    ensures buf[..newbuf] == old(buf[..newbuf])
  {
    var i := newval % radix;
    MoveDigit(newval, buf[at..newbuf], radix);
    ghost var low := buf[at..newbuf];
    buf[newbuf] := Digit(i);
    assert buf[at..newbuf + 1] == low + [Digit(i)];
    rest := newval / radix;
  }

  lemma ReversedTwice(s: seq<byte>)
    ensures Reversed(Reversed(s)) == s
  {
  }

  lemma ReversedHasNoNul(s: seq<byte>)
    requires NUL !in s
    ensures NUL !in Reversed(s)
  {
  }

  // itoa, writing at buf[at..]: the string left there is the numeral of the value.
  method Itoa(value: nat, buf: array<byte>, at: nat, radix: nat)
    requires value < UINT32 && 2 <= radix <= 36
    requires at + 33 <= buf.Length
    modifies buf
    ensures |Numeral(value, radix)| <= 32
    ensures Text(buf[at..]) == Numeral(value, radix) && NUL in buf[at..]
    ensures buf[..at] == old(buf[..at])
  {
    if value == 0 {
      buf[at] := ZERO;
      buf[at + 1] := NUL;
      IsString(buf, at, [ZERO]);
      return;
    }
    var newbuf := WriteDigits(value, buf, at, radix);
    ReversedHasNoNul(Numeral(value, radix));
    ReversedTwice(Numeral(value, radix));
    buf[newbuf] := NUL;
    IsString(buf, at, Reversed(Numeral(value, radix)));
    Strrev(buf, at);
  }

  // printf's %#x: the string it prints is exactly eight hexadecimal digits that denote the value.
  method PrintHex8(value: nat) returns (out: seq<byte>)
    requires value < UINT32
    ensures |out| == 8 && (forall c :: c in out ==> IsDigit(c, 16)) && Parse(out, 16) == value
  {
    var convBuf := new byte[64];
    Itoa(value, convBuf, 8, 16);
    Padded(value);
    var startingIndex := Pad(convBuf, Numeral(value, 16));
    var len := Strlen(convBuf, startingIndex);
    out := convBuf[startingIndex..startingIndex + len];
    assert convBuf[startingIndex..][..len] == out;
  }

  lemma Padded(value: nat)
    requires value < UINT32
    ensures var n := |Numeral(value, 16)|;
            n <= 8 &&
            var out := seq(8 - n, _ => ZERO) + Numeral(value, 16);
            (forall c :: c in out ==> IsDigit(c, 16)) && Parse(out, 16) == value
  {
    Pow2Of32();
    HexDigits(value, 8);
    NumeralParses(value, 16);
    NumeralIsNumeral(value, 16);
    PadParses(Numeral(value, 16), 8 - |Numeral(value, 16)|, 16);
  }

  // Zeros in front of the digits at convBuf[8..], up to eight characters in all.
  method Pad(convBuf: array<byte>, ghost digits: seq<byte>) returns (start: nat)
    requires convBuf.Length == 64 && NUL in convBuf[8..] && Text(convBuf[8..]) == digits && |digits| <= 8
    modifies convBuf
    ensures start == |digits| && NUL in convBuf[start..]
    ensures Text(convBuf[start..]) == seq(8 - start, _ => ZERO) + digits
  {
    start := Strlen(convBuf, 8);
    ghost var tail := convBuf[8..];
    var i := start;
    while i < 8
      invariant start <= i <= 8 && convBuf[8..] == tail
      invariant forall k :: start <= k < i ==> convBuf[k] == ZERO
    {
      convBuf[i] := ZERO;
      i := i + 1;
    }
    ghost var zeros := seq(8 - start, _ => ZERO);
    ghost var all := convBuf[start..];
    assert convBuf[start..8] == zeros;
    assert all == zeros + tail;
    assert tail[..start] == digits && tail[start] == NUL;
    assert all[..8] == zeros + digits && all[8] == NUL;
    TextIs(all, 8);
  }

  lemma {:induction false} PadParses(s: seq<byte>, k: nat, radix: nat)
    ensures Parse(seq(k, _ => ZERO) + s, radix) == Parse(s, radix)
  {
    var zeros := seq(k, _ => ZERO);
    if s != [] {
      var n := |s| - 1;
      PadParses(s[..n], k, radix);
      assert (zeros + s)[..k + n] == zeros + s[..n];
    } else if k > 0 {
      PadParses(s, k - 1, radix);
      assert (zeros + s)[..k - 1] == seq(k - 1, _ => ZERO) + s;
    }
  }
}
