/** Numbers to text and back: the buffers of fmt::to_string and parse_uint. */
module Numbers {
  import opened Common

  const BUFFER: nat := 128
  const REVERSE: nat := 64
  const NUL: char := '\0'

  datatype Format = Dec | Hex | Bin | Oct

  function Divisor(f: Format): (b: nat)
    ensures 2 <= b <= 16
  {
    match f case Dec => 10 case Hex => 16 case Bin => 2 case Oct => 8
  }

  function DigitChar(d: nat): char
    requires d < 16
  {
    if d < 10 then '0' + d as char else 'A' + (d - 10) as char
  }

  function Prefix(f: Format): string
  {
    match f case Dec => "" case Hex => "0x" case Bin => "0b" case Oct => "0o"
  }

  /** The digits of a number without leading zeros, none for zero. */
  function Digits(n: nat, b: nat): string
    requires 2 <= b <= 16
  {
    if n == 0 then "" else Digits(n / b, b) + [DigitChar(n % b)]
  }

  function Body(n: nat, f: Format): string { if n == 0 then "0" else Digits(n, Divisor(f)) }

  function Repeat(c: char, n: nat): (s: string)
    ensures |s| == n && forall i | 0 <= i < n :: s[i] == c
  {
    seq(n, _ => c)
  }

  /** Zeros that bring `len` digits up to a multiple of four. */
  function Missing(len: int): (z: nat)
    ensures z < 4 && (len + z) % 4 == 0
  {
    (4 - len) % 4
  }

  /** What a number should look like. */
  function Text(n: nat, f: Format): string
  {
    if f == Dec then Body(n, f)
    else Prefix(f) + Repeat('0', Missing(|Body(n, f)|)) + Body(n, f)
  }

  // ---------- Lengths ----------

  function Power2(k: nat): nat { if k == 0 then 1 else 2 * Power2(k - 1) }

  lemma {:induction false} DigitsFit(n: nat, b: nat, k: nat)
    requires 2 <= b <= 16 && n < Power2(k)
    ensures |Digits(n, b)| <= k
  {
    if n > 0 {
      HalfOrLess(n, b);
      DigitsFit(n / b, b, k - 1);
    }
  }

  lemma HalfOrLess(n: nat, b: nat)
    requires 2 <= b && n > 0
    ensures n / b <= n / 2 && 2 * (n / 2) <= n
  {
    var q := n / b;
    assert b * q <= n;
    assert 2 * q <= b * q;
  }

  lemma PowerWord()
    ensures Power2(64) == WORD
  {
    assert Power2(4) == 2 * Power2(3) == 4 * Power2(2) == 8 * Power2(1) == 16;
    PowerAdds(4, 4);
    PowerAdds(8, 8);
    PowerAdds(16, 16);
    PowerAdds(32, 32);
  }

  lemma Doubled(x: nat, y: nat)
    ensures x * (2 * y) == 2 * (x * y)
  {
  }

  lemma {:induction false} PowerAdds(a: nat, b: nat)
    ensures Power2(a + b) == Power2(a) * Power2(b)
  {
    if b > 0 {
      PowerAdds(a, b - 1);
      Doubled(Power2(a), Power2(b - 1));
    }
  }

  /** No 64-bit number has more digits than the scratch buffer holds. */
  lemma AtMost64(n: nat, f: Format)
    requires n < WORD
    ensures 1 <= |Body(n, f)| <= 64
  {
    PowerWord();
    DigitsFit(n, Divisor(f), 64);
  }

  /** Prefixed numbers come in groups of four digits. */
  lemma GroupsOfFour(n: nat, f: Format)
    requires n < WORD && f != Dec
    ensures |Text(n, f)| <= 2 + 64 && (|Text(n, f)| - 2) % 4 == 0 && Text(n, f)[..2] == Prefix(f)
  {
    AtMost64(n, f);
  }

  // ---------- Parsing ----------

  /** The number a string spells, each character worth its distance from '0'. */
  function Value(s: string, b: nat): int
  {
    if s == "" then 0 else Value(s[..|s| - 1], b) * b + (s[|s| - 1] as int - '0' as int)
  }

  function UpToNul(s: string): string
  {
    if s == "" || s[0] == NUL then "" else [s[0]] + UpToNul(s[1..])
  }

  lemma {:induction false} WholeString(s: string)
    requires NUL !in s
    ensures UpToNul(s) == s
  {
    if s != "" {
      WholeString(s[1..]);
      assert s == [s[0]] + s[1..];
    }
  }

  lemma {:induction false} LeadingZeros(z: nat, s: string, b: nat)
    ensures Value(Repeat('0', z) + s, b) == Value(s, b)
    decreases |s|, z
  {
    var zeros := Repeat('0', z);
    if s != "" {
      assert (zeros + s)[..z + |s| - 1] == zeros + s[..|s| - 1];
      LeadingZeros(z, s[..|s| - 1], b);
    } else if z > 0 {
      assert (zeros + s)[..z - 1] == Repeat('0', z - 1) + s;
      LeadingZeros(z - 1, s, b);
    } else {
      assert zeros + s == s;
    }
  }

  lemma {:induction false} DigitsNotNul(n: nat, b: nat)
    requires 2 <= b <= 16
    ensures NUL !in Digits(n, b)
  {
    if n > 0 {
      DigitsNotNul(n / b, b);
    }
  }

  /** What reading the letters of a hexadecimal number as digits adds: a letter
      is seven further from '0' than its value. */
  function Excess(n: nat, b: nat): nat
    requires 2 <= b <= 16
  {
    if n == 0 then 0 else b * Excess(n / b, b) + (if n % b >= 10 then 7 else 0)
  }

  lemma SplitOff(n: nat, b: nat)
    requires b > 0
    ensures n == b * (n / b) + n % b && n % b < b
  {
  }

  lemma Scaled(b: nat, x: nat, y: nat)
    ensures x <= y ==> b * x <= b * y
    ensures b > 0 && x > 0 ==> b * x > 0
    ensures b * (x + y) == b * x + b * y
  {
  }

  /** The last digit and the rest of a number, as `Excess` sees them. */
  lemma ExcessUnfolds(n: nat, b: nat) returns (q: nat, d: nat)
    requires 2 <= b <= 16 && n > 0
    ensures q == n / b < n && d == n % b < b && n == b * q + d
    ensures Excess(n, b) == b * Excess(q, b) + if d >= 10 then 7 else 0
  {
    q, d := n / b, n % b;
    SplitOff(n, b);
    HalfOrLess(n, b);
  }

  lemma {:induction false} ExcessBound(n: nat, b: nat)
    requires 2 <= b <= 16
    ensures Excess(n, b) <= n && (b <= 10 ==> Excess(n, b) == 0)
  {
    if n > 0 {
      var q, d := ExcessUnfolds(n, b);
      ExcessBound(q, b);
      Scaled(b, Excess(q, b), q);
    }
  }

  lemma ValueOneMore(front: string, d: nat, b: nat)
    requires d < 16
    ensures Value(front + [DigitChar(d)], b) == Value(front, b) * b + d + if d >= 10 then 7 else 0
  {
    assert (front + [DigitChar(d)])[..|front|] == front;
  }

  lemma {:induction false} ValueOfDigits(n: nat, b: nat)
    requires 2 <= b <= 16
    ensures Value(Digits(n, b), b) == n + Excess(n, b)
  {
    if n > 0 {
      ValueOfDigits(n / b, b);
      ValueStep(n, b, Digits(n / b, b), Excess(n / b, b));
    }
  }

  lemma ValueStep(n: nat, b: nat, front: string, e: nat)
    requires 2 <= b <= 16 && Value(front, b) == n / b + e
    ensures Value(front + [DigitChar(n % b)], b) == n + (b * e + if n % b >= 10 then 7 else 0)
  {
    var q: nat, d: nat := n / b, n % b;
    SplitOff(n, b);
    ValueOneMore(front, d, b);
    Combine(b, q, e, d, if d >= 10 then 7 else 0);
  }

  lemma Combine(b: nat, q: nat, e: nat, d: nat, x: nat)
    ensures (q + e) * b + d + x == (b * q + d) + (b * e + x)
  {
  }

  lemma ValueOfText(n: nat, f: Format)
    ensures Value(Text(n, f)[|Prefix(f)|..], Divisor(f)) == n + Excess(n, Divisor(f))
  {
    var b, z := Divisor(f), Missing(|Body(n, f)|);
    assert Text(n, f)[|Prefix(f)|..] == (if f == Dec then "" else Repeat('0', z)) + Body(n, f);
    if f == Dec {
      assert "" + Body(n, f) == Body(n, f);
    } else {
      LeadingZeros(z, Body(n, f), b);
    }
    ValueOfBody(n, f);
  }

  lemma ValueOfBody(n: nat, f: Format)
    ensures Value(Body(n, f), Divisor(f)) == n + Excess(n, Divisor(f))
  {
    if n == 0 {
      assert "" + [DigitChar(0)] == "0";
      ValueOneMore("", 0, Divisor(f));
    } else {
      ValueOfDigits(n, Divisor(f));
    }
  }

  /** Decimal, octal and binary numbers survive the round trip in 64 bits; a
      hexadecimal one exactly if it is written without letters. */
  lemma RoundTrip(n: nat, f: Format)
    requires n < WORD
    ensures Value(Text(n, f)[|Prefix(f)|..], Divisor(f)) % WORD == n <==> Excess(n, Divisor(f)) == 0
    ensures f != Hex ==> Excess(n, Divisor(f)) == 0
  {
    ValueOfText(n, f);
    ExcessBound(n, Divisor(f));
    WrapsOnce(Value(Text(n, f)[|Prefix(f)|..], Divisor(f)), n, Excess(n, Divisor(f)));
  }

  /** The terminator is met exactly at the end of what was written. */
  lemma TextNotNul(n: nat, f: Format)
    ensures UpToNul(Text(n, f)) == Text(n, f)
    ensures UpToNul(Text(n, f)[|Prefix(f)|..]) == Text(n, f)[|Prefix(f)|..]
  {
    DigitsNotNul(n, Divisor(f));
    WholeString(Text(n, f));
    WholeString(Text(n, f)[|Prefix(f)|..]);
  }

  lemma WrapsOnce(v: int, n: nat, e: nat)
    requires e <= n < WORD && v == n + e
    ensures v % WORD == n <==> e == 0
  {
  }

  ghost predicate Letterless(s: string) { forall c | c in s :: '0' <= c <= '9' }

  lemma OneMoreChar(front: string, d: nat)
    requires d < 16
    ensures Letterless(front + [DigitChar(d)]) <==> Letterless(front) && d < 10
  {
    var all := front + [DigitChar(d)];
    assert all[|front|] == DigitChar(d) && DigitChar(d) in all;
    assert forall x | x in front :: x in all;
    assert forall x | x in all :: x in front || x == DigitChar(d);
    assert if d < 10 then '0' <= DigitChar(d) <= '9' else '9' < DigitChar(d);
  }

  lemma {:induction false} ExcessIsLetters(n: nat, b: nat)
    requires 2 <= b <= 16
    ensures Excess(n, b) == 0 <==> Letterless(Digits(n, b))
  {
    if n > 0 {
      var q, d := ExcessUnfolds(n, b);
      ExcessIsLetters(q, b);
      Scaled(b, Excess(q, b), 0);
      OneMoreChar(Digits(q, b), d);
      assert Digits(n, b) == Digits(q, b) + [DigitChar(d)];
    }
  }

  // ---------- Signed numbers ----------

  function Magnitude(num: int): nat { if num < 0 then -num else num }

  function SignOf(num: int): string { if num < 0 then "-" else "" }

  /** What to_string writes: the zeros go in at position two, counted from the
      sign when there is one. */
  function SignedText(num: int, f: Format): string
  {
    Padded(SignOf(num) + Prefix(f) + Body(Magnitude(num), f), f)
  }

  function Padded(raw: string, f: Format): string
  {
    if f == Dec || |raw| < 2 then raw else raw[..2] + Repeat('0', Missing(|raw| - 2)) + raw[2..]
  }

  lemma PaddedIsText(n: nat, f: Format)
    requires n < WORD
    ensures Padded(Prefix(f) + Body(n, f), f) == Text(n, f) && |Padded(Prefix(f) + Body(n, f), f)| < BUFFER
  {
    AtMost64(n, f);
    var raw := Prefix(f) + Body(n, f);
    if f != Dec {
      assert raw[..2] == Prefix(f) && raw[2..] == Body(n, f);
    }
  }

  /** A signed number reads as its sign and its magnitude exactly if it is not
      negative or is decimal. */
  lemma SignedIsText(num: int, f: Format)
    requires -(WORD as int) < num < WORD
    ensures SignedText(num, f) == SignOf(num) + Text(Magnitude(num), f) <==> num >= 0 || f == Dec
  {
    var n := Magnitude(num);
    AtMost64(n, f);
    if num >= 0 {
      assert "" + Prefix(f) + Body(n, f) == Prefix(f) + Body(n, f);
      assert "" + Text(n, f) == Text(n, f);
    } else if f == Dec {
      assert "-" + "" + Body(n, f) == "-" + Body(n, f);
    } else {
      NegativeLength(n, f);
    }
  }

  lemma NegativeLength(n: nat, f: Format)
    requires 0 < n < WORD && f != Dec
    ensures |SignedText(0 - n, f)| % 4 != |"-" + Text(n, f)| % 4
  {
    var k := |Body(n, f)|;
    var a, b := k + 1 + Missing(k + 1), k + Missing(k);
    assert |SignedText(0 - n, f)| == 2 + a;
    assert |"-" + Text(n, f)| == 3 + b;
    NeverAligned(a, b);
  }

  lemma NeverAligned(a: nat, b: nat)
    requires a % 4 == b % 4 == 0
    ensures (2 + a) % 4 != (3 + b) % 4
  {
  }

  // ---------- The buffers ----------

  lemma WrapStep(a: int, b: nat, d: int)
    ensures (a % WORD * b + d) % WORD == (a * b + d) % WORD
  {
    var q, r := a / WORD, a % WORD;
    assert a == WORD * q + r;
    assert a * b == WORD * (q * b) + r * b;
    WrapAdds(r * b + d, q * b);
  }

  lemma WrapAdds(x: int, k: int)
    ensures (WORD * k + x) % WORD == x % WORD
  {
  }

  lemma {:induction false} UpToNulIs(s: string, i: nat)
    requires i <= |s| && NUL !in s[..i] && (i < |s| ==> s[i] == NUL)
    ensures UpToNul(s) == s[..i]
    decreases i
  {
    if i > 0 {
      assert s[0] == s[..i][0];
      assert s[1..][..i - 1] == s[..i][1..];
      UpToNulIs(s[1..], i - 1);
    }
  }

  method ParseUint(s: string, f: Format) returns (result: nat)
    ensures result == Value(UpToNul(s), Divisor(f)) % WORD
  {
    var divisor := Divisor(f);
    result := 0;
    var i := 0;
    while i < |s| && s[i] != NUL
      invariant 0 <= i <= |s| && NUL !in s[..i]
      invariant result == Value(s[..i], divisor) % WORD
    {
      var d := s[i] as int - '0' as int;
      assert s[..i + 1][..i] == s[..i];
      WrapStep(Value(s[..i], divisor), divisor, d);
      result := (result * divisor + d) % WORD;
      i := i + 1;
    }
    UpToNulIs(s, i);
  }

  /** The digits from the last to the first; there is room for all of them. */
  method CollectDigits(num: nat, f: Format) returns (reverse: array<char>, ri: nat)
    requires num < WORD
    ensures fresh(reverse) && reverse.Length == REVERSE && ri <= REVERSE
    ensures Reversed(reverse[..ri]) == Digits(num, Divisor(f))
  {
    reverse := new char[REVERSE];
    var unum, divisor := num, Divisor(f);
    PowerWord();
    DigitsFit(num, divisor, REVERSE);
    ri := 0;
    while unum > 0
      invariant ri <= REVERSE
      invariant Digits(unum, divisor) + Reversed(reverse[..ri]) == Digits(num, divisor)
    {
      ghost var done := reverse[..ri];
      reverse[ri] := DigitChar(unum % divisor);
      assert reverse[..ri + 1] == done + [DigitChar(unum % divisor)];
      PrependDigit(Digits(unum / divisor, divisor), done, DigitChar(unum % divisor));
      ri := ri + 1;
      unum := unum / divisor;
    }
    assert "" + Reversed(reverse[..ri]) == Reversed(reverse[..ri]);
  }

  lemma PrependDigit(front: string, done: string, c: char)
    ensures front + Reversed(done + [c]) == front + [c] + Reversed(done)
  {
    assert Reversed(done + [c]) == [c] + Reversed(done);
  }

  method CopyBack(buffer: array<char>, start: nat, reverse: array<char>, count: nat) returns (index: nat)
    requires reverse != buffer && count <= reverse.Length && start + count <= buffer.Length
    modifies buffer
    ensures index == start + count
    ensures buffer[..index] == old(buffer[..start]) + Reversed(reverse[..count])
  {
    index := start;
    var ri := count;
    while ri > 0
      invariant 0 <= ri <= count && index == start + (count - ri)
      invariant buffer[..index] == old(buffer[..start]) + Reversed(reverse[..count])[..count - ri]
    {
      ri := ri - 1;
      buffer[index] := reverse[ri];
      index := index + 1;
      assert buffer[..index] == buffer[..index - 1] + [reverse[ri]];
    }
    assert Reversed(reverse[..count])[..count] == Reversed(reverse[..count]);
  }

  method Put(buffer: array<char>, start: nat, text: string) returns (index: nat)
    requires start + |text| <= buffer.Length
    modifies buffer
    ensures index == start + |text| && buffer[..index] == old(buffer[..start]) + text
  {
    index := start;
    while index < start + |text|
      invariant start <= index <= start + |text|
      invariant buffer[..index] == old(buffer[..start]) + text[..index - start]
    {
      ghost var before := buffer[..index];
      buffer[index] := text[index - start];
      assert buffer[..index + 1] == before + [text[index - start]];
      assert text[..index - start + 1] == text[..index - start] + [text[index - start]];
      index := index + 1;
    }
    assert text[..|text|] == text;
  }

  /** Prefix and digits, as both forms of to_string write them. */
  method WriteNumber(buffer: array<char>, start: nat, num: nat, f: Format) returns (index: nat)
    requires buffer.Length == BUFFER && start <= 1 && num < WORD
    modifies buffer
    ensures index == start + |Prefix(f)| + |Body(num, f)| <= 67
    ensures buffer[..index] == old(buffer[..start]) + Prefix(f) + Body(num, f)
  {
    AtMost64(num, f);
    index := Put(buffer, start, Prefix(f));
    if num == 0 {
      index := Put(buffer, index, "0");
    }
    var reverse, ri := CollectDigits(num, f);
    ghost var so := buffer[..index];
    index := CopyBack(buffer, index, reverse, ri);
    assert num == 0 ==> so + "" == so;
  }

  /** insert: `num` copies of `pad` at `pos`, the rest moved right. */
  method Insert(buffer: array<char>, pos: nat, index: nat, num: nat, pad: char) returns (inserted: nat)
    requires index + num <= buffer.Length
    modifies buffer
    ensures inserted == if pos < index then num else 0
    ensures pos < index ==>
      buffer[..index + num] == old(buffer[..pos]) + Repeat(pad, num) + old(buffer[pos..index])
    ensures pos >= index ==> buffer[..] == old(buffer[..])
  {
    if pos >= index {
      return 0;
    }
    Shift(buffer, pos, index, num);
    Fill(buffer, pos, num, pad);
    inserted := num;
    ghost var all := old(buffer[..pos]) + Repeat(pad, num) + old(buffer[pos..index]);
    forall j | 0 <= j < index + num ensures buffer[j] == all[j] {
    }
  }

  method Shift(buffer: array<char>, pos: nat, index: nat, num: nat)
    requires pos < index && index + num <= buffer.Length
    modifies buffer
    ensures forall j | 0 <= j < pos :: buffer[j] == old(buffer[j])
    ensures forall j | pos + num <= j < index + num :: buffer[j] == old(buffer[j - num])
  {
    ghost var was := buffer[..];
    var i := index - 1;
    while true
      invariant pos <= i < index
      invariant forall j | 0 <= j <= i :: buffer[j] == was[j]
      invariant forall j | i + num < j < index + num :: buffer[j] == was[j - num]
      decreases i
    {
      buffer[i + num] := buffer[i];
      if i == pos {
        break;
      }
      i := i - 1;
    }
  }

  method Fill(buffer: array<char>, pos: nat, num: nat, pad: char)
    requires pos + num <= buffer.Length
    modifies buffer
    ensures forall j | 0 <= j < buffer.Length :: buffer[j] == if pos <= j < pos + num then pad else old(buffer[j])
  {
    var i := pos;
    while i < pos + num
      invariant pos <= i <= pos + num
      invariant forall j | 0 <= j < buffer.Length :: buffer[j] == if pos <= j < i then pad else old(buffer[j])
    {
      buffer[i] := pad;
      i := i + 1;
    }
  }

  method PadZero(buffer: array<char>, index: nat) returns (zeros: nat)
    requires buffer.Length == BUFFER && 2 < index <= 67
    modifies buffer
    ensures zeros == Missing(index - 2)
    ensures buffer[..index + zeros] == old(buffer[..2]) + Repeat('0', zeros) + old(buffer[2..index])
  {
    zeros := Insert(buffer, 2, index, Missing(index - 2), '0');
  }

  method Finish(buffer: array<char>, start: nat, f: Format) returns (index: nat)
    requires buffer.Length == BUFFER && start <= 67 && (f != Dec ==> 2 < start)
    modifies buffer
    ensures index == |Padded(old(buffer[..start]), f)| < BUFFER && buffer[index] == NUL
    ensures buffer[..index] == Padded(old(buffer[..start]), f)
  {
    index := start;
    ghost var raw := buffer[..start];
    assert start >= 2 ==> raw[..2] == buffer[..2] && raw[2..] == buffer[2..start];
    if f != Dec {
      var zeros := PadZero(buffer, index);
      index := index + zeros;
    }
    ghost var text := buffer[..index];
    buffer[index] := NUL;
    assert buffer[..index] == text;
  }

  /** to_string of an unsigned number. */
  method ToString(num: nat, buffer: array<char>, f: Format)
    requires buffer.Length == BUFFER && num < WORD
    modifies buffer
    ensures var n := |Text(num, f)|;
      n < BUFFER && buffer[..n] == Text(num, f) && buffer[n] == NUL
  {
    AtMost64(num, f);
    PaddedIsText(num, f);
    var index := WriteNumber(buffer, 0, num, f);
    assert buffer[..index] == Prefix(f) + Body(num, f);
    index := Finish(buffer, index, f);
  }

  /** to_string of a signed number. */
  method ToStringSigned(num: int, buffer: array<char>, f: Format)
    requires buffer.Length == BUFFER && -0x8000_0000_0000_0000 <= num < 0x8000_0000_0000_0000
    modifies buffer
    ensures var n := |SignedText(num, f)|;
      n < BUFFER && buffer[..n] == SignedText(num, f) && buffer[n] == NUL
  {
    var index, unum := WriteSign(num, buffer);
    AtMost64(unum, f);
    index := WriteNumber(buffer, index, unum, f);
    index := Finish(buffer, index, f);
  }

  method WriteSign(num: int, buffer: array<char>) returns (index: nat, unum: nat)
    requires buffer.Length == BUFFER && -0x8000_0000_0000_0000 <= num < 0x8000_0000_0000_0000
    modifies buffer
    ensures index <= 1 && buffer[..index] == SignOf(num) && unum == Magnitude(num) < WORD
  {
    index := 0;
    if num < 0 {
      buffer[index] := '-';
      index := index + 1;
      unum := -num % WORD;
    } else {
      unum := num;
    }
  }

  // ---------- There and back ----------

  /** What parse_uint sees after the prefix is exactly what to_string wrote. */
  lemma SeenText(buffer: string, n: nat, f: Format)
    requires |buffer| == BUFFER && |Text(n, f)| < BUFFER
    requires buffer[..|Text(n, f)|] == Text(n, f) && buffer[|Text(n, f)|] == NUL
    requires |Prefix(f)| <= |Text(n, f)|
    ensures UpToNul(buffer[|Prefix(f)|..]) == Text(n, f)[|Prefix(f)|..]
  {
    TextNotNul(n, f);
    NoNul(Text(n, f)[|Prefix(f)|..]);
    SeenFrom(buffer, Text(n, f), |Prefix(f)|);
  }

  lemma SeenFrom(buffer: string, text: string, k: nat)
    requires k <= |text| < |buffer| && buffer[..|text|] == text && buffer[|text|] == NUL && NUL !in text[k..]
    ensures UpToNul(buffer[k..]) == text[k..]
  {
    assert buffer == buffer[..|text|] + buffer[|text|..];
    assert buffer[k..] == text[k..] + buffer[|text|..];
    UpToNulIs(buffer[k..], |text| - k);
  }

  lemma {:induction false} NoNul(s: string)
    requires UpToNul(s) == s
    ensures NUL !in s
  {
    if s != "" {
      assert s == [s[0]] + s[1..];
      NoNul(s[1..]);
    }
  }

  /** A number written by to_string and read by parse_uint after its prefix is
      the same number, except if it is hexadecimal and has a letter in it. */
  method WriteThenRead(n: nat, f: Format) returns (r: nat)
    requires n < WORD
    ensures r == n <==> f != Hex || Letterless(Digits(n, 16))
  {
    var buffer := new char[BUFFER];
    ToString(n, buffer, f);
    AtMost64(n, f);
    SeenText(buffer[..], n, f);
    RoundTrip(n, f);
    ExcessIsLetters(n, Divisor(f));
    r := ParseUint(buffer[|Prefix(f)|..], f);
  }
}
