/**
  Printing numbers in a base from 2 to 36, and parsing them back.
*/
module BigintText {
  import opened Arith
  import opened BigintValue
  import opened BigintMul
  import opened BigintObject
  import opened BigintDivision
  import opened BigintPower

  const TABLE: string := "0123456789abcdefghijklmnopqrstuvwxyz"

  const NO_DIGIT: Word := 0xFFFF_FFFF

  /** The value of a character as a digit, in either case; NO_DIGIT for others. */
  function WordFromChar(c: char): Word {
    if '0' <= c <= '9' then (c - '0') as int
    else if 'a' <= c <= 'z' then (c - 'a') as int + 10
    else if 'A' <= c <= 'Z' then (c - 'A') as int + 10
    else NO_DIGIT
  }

  lemma {:induction false} TableDigit(d: nat)
    requires d < 36
    ensures |TABLE| == 36 && WordFromChar(TABLE[d]) == d && TABLE[d] != '-' && TABLE[d] != '\0'
  {
  }

  /** A letter in the other case. */
  function OtherCase(c: char): char {
    if 'a' <= c <= 'z' then 'A' + (c - 'a') else if 'A' <= c <= 'Z' then 'a' + (c - 'A') else c
  }

  /** The digits are '0' to '9' and the letters of both cases in order, and nothing else. */
  lemma {:induction false} DigitIff(c: char, d: nat)
    ensures WordFromChar(c) == d < 36 <==>
      || (d < 10 && c as int == '0' as int + d)
      || (10 <= d < 36 && (c as int == 'a' as int + d - 10 || c as int == 'A' as int + d - 10))
    ensures WordFromChar(c) < 36 || WordFromChar(c) == NO_DIGIT
    ensures WordFromChar(OtherCase(c)) == WordFromChar(c)
  {
  }

  /** The digits of v, the lowest first; none for zero. */
  function Digits(v: nat, base: nat): string
    requires 2 <= base <= 36
  {
    if v == 0 then []
    else
      DivFacts(v, base);
      Smaller(v, base);
      [TABLE[v % base]] + Digits(v / base, base)
  }

  lemma {:induction false} Smaller(v: nat, base: nat)
    requires v > 0 && base >= 2
    ensures v / base < v
  {
    DivFacts(v, base);
    if v / base == v {
      MulMonotone(v, 2, base);
    }
  }

  /** The whole text from its end: terminator, digits, sign. */
  function Backwards(neg: bool, v: nat, base: nat, terminate: bool): string
    requires 2 <= base <= 36
  {
    (if terminate then ['\0'] else []) + Body(v, base) + (if neg then ['-'] else [])
  }

  function Reversed(s: string): (r: string)
    ensures |r| == |s|
    ensures forall i :: 0 <= i < |s| ==> r[i] == s[|s| - 1 - i]
  {
    seq(|s|, i requires 0 <= i < |s| => s[|s| - 1 - i])
  }

  // ---------- Parsing ----------

  /** What reading s makes of the value so far: characters that are no digits are
      skipped. */
  function Parse(v: nat, s: string, base: nat): nat
    decreases |s|
  {
    if s == [] then v
    else if WordFromChar(s[0]) == NO_DIGIT then Parse(v, s[1..], base)
    else Parse(v * base + WordFromChar(s[0]), s[1..], base)
  }

  /** Some letters of t are those of s in the other case. */
  predicate SameButCase(s: string, t: string) {
    |s| == |t| && forall i :: 0 <= i < |s| ==> t[i] == s[i] || t[i] == OtherCase(s[i])
  }

  /** Texts that differ in the case of letters only stand for the same number. */
  lemma {:induction false} CaseIgnored(v: nat, s: string, t: string, base: nat)
    requires SameButCase(s, t)
    ensures Parse(v, s, base) == Parse(v, t, base)
    decreases |s|
  {
    if s != [] {
      var d := WordFromChar(s[0]);
      DigitIff(s[0], 0);
      assert WordFromChar(t[0]) == d;
      assert SameButCase(s[1..], t[1..]);
      CaseIgnored(if d == NO_DIGIT then v else v * base + d, s[1..], t[1..], base);
    }
  }

  lemma {:induction false} ParseAppend(v: nat, s: string, t: string, base: nat)
    ensures Parse(v, s + t, base) == Parse(Parse(v, s, base), t, base)
    decreases |s|
  {
    if s == [] {
      assert s + t == t;
    } else {
      assert (s + t)[1..] == s[1..] + t;
      if WordFromChar(s[0]) == NO_DIGIT {
        ParseAppend(v, s[1..], t, base);
      } else {
        ParseAppend(v * base + WordFromChar(s[0]), s[1..], t, base);
      }
    }
  }

  lemma {:induction false} ParseGrows(v: nat, s: string, base: nat)
    requires base >= 1
    ensures Parse(v, s, base) >= v
    decreases |s|
  {
    if s != [] {
      if WordFromChar(s[0]) == NO_DIGIT {
        ParseGrows(v, s[1..], base);
      } else {
        MulMonotone(v, 1, base);
        ParseGrows(v * base + WordFromChar(s[0]), s[1..], base);
      }
    }
  }

  function CountDigits(s: string): nat {
    if s == [] then 0 else (if WordFromChar(s[0]) == NO_DIGIT then 0 else 1) + CountDigits(s[1..])
  }

  lemma {:induction false} PowNotNegative(b: nat, e: nat)
    ensures IntPow(b, e) >= 0
  {
    if e > 0 {
      PowNotNegative(b, e - 1);
    }
  }

  /** Even with digits above the base, the value stays below 36 powers of the base. */
  lemma {:induction false} ParseBound(v: nat, s: string, base: nat)
    requires base >= 2
    ensures Parse(v, s, base) + 36 <= (v + 36) * IntPow(base, CountDigits(s))
    decreases |s|
  {
    if s == [] {
      assert (v + 36) * 1 == v + 36;
    } else if WordFromChar(s[0]) == NO_DIGIT {
      ParseBound(v, s[1..], base);
    } else {
      var w := v * base + WordFromChar(s[0]);
      ParseBound(w, s[1..], base);
      PowNotNegative(base, CountDigits(s[1..]));
      DigitBound(v, w, base, IntPow(base, CountDigits(s[1..])));
    }
  }

  lemma {:induction false} DigitBound(v: nat, w: nat, base: nat, p: nat)
    requires base >= 2 && w <= v * base + 35
    ensures (w + 36) * p <= (v + 36) * (base * p)
  {
    assert (v + 36) * base == v * base + 36 * base;
    MulMonotone(p, w + 36, (v + 36) * base);
    MulAssociates(v + 36, base, p);
    assert p * (w + 36) == (w + 36) * p && p * ((v + 36) * base) == (v + 36) * base * p;
  }

  /** One word more than the power of the base needs is enough for any text. */
  lemma {:induction false} CapacitySuffices(s: string, base: nat, capacity: nat)
    requires base >= 2 && capacity > 0 && IntPow(base, CountDigits(s)) <= Pow(capacity - 1)
    ensures Parse(0, s, base) < Pow(capacity)
  {
    ParseBound(0, s, base);
    MulMonotone(36, IntPow(base, CountDigits(s)), Pow(capacity - 1));
  }

  // ---------- Round trip on texts ----------

  lemma {:induction false} ReversedConcat(s: string, t: string)
    ensures Reversed(s + t) == Reversed(t) + Reversed(s)
  {
  }

  lemma {:induction false} ParseOne(v: nat, c: char, base: nat)
    ensures Parse(v, [c], base) == if WordFromChar(c) == NO_DIGIT then v else v * base + WordFromChar(c)
  {
    assert [c][1..] == [];
  }

  lemma {:induction false} DigitsParse(v: nat, base: nat)
    requires 2 <= base <= 36
    ensures Parse(0, Reversed(Digits(v, base)), base) == v
    decreases v
  {
    if v == 0 {
      assert Reversed([]) == [];
    } else {
      DivFacts(v, base);
      Smaller(v, base);
      var d, rest := TABLE[v % base], Digits(v / base, base);
      DigitsParse(v / base, base);
      ReversedConcat([d], rest);
      assert Reversed([d]) == [d];
      ParseAppend(0, Reversed(rest), [d], base);
      TableDigit(v % base);
      ParseOne(v / base, d, base);
    }
  }

  lemma {:induction false} DigitsFirst(v: nat, base: nat, i: nat)
    requires 2 <= base <= 36 && i < |Digits(v, base)|
    ensures Digits(v, base)[i] != '-' && Digits(v, base)[i] != '\0'
    decreases i
  {
    DivFacts(v, base);
    Smaller(v, base);
    if i == 0 {
      TableDigit(v % base);
    } else {
      DigitsFirst(v / base, base, i - 1);
    }
  }

  /** The text of a number, without the terminator. */
  function Text(neg: bool, v: nat, base: nat): string
    requires 2 <= base <= 36
  {
    Reversed(Backwards(neg, v, base, false))
  }

  /** Reading the text of a number gives its magnitude and its sign back. */
  lemma {:induction false} TextRoundTrip(neg: bool, v: nat, base: nat)
    requires 2 <= base <= 36
    ensures var t := Text(neg, v, base);
      && |t| > 0 && Parse(0, t, base) == v && (t[0] == '-' <==> neg)
      && (forall i :: 0 <= i < |t| ==> t[i] != '\0')
      && Reversed(Backwards(neg, v, base, true)) == t + ['\0']
  {
    var digits := if v == 0 then ['0'] else Digits(v, base);
    var sign := if neg then ['-'] else [];
    assert Backwards(neg, v, base, false) == digits + sign;
    assert Backwards(neg, v, base, true) == ['\0'] + (digits + sign);
    DigitsPlain(v, base, digits);
    DigitsRead(v, base, digits);
    Assembled(neg, v, base, digits, sign);
  }

  lemma {:induction false} DigitsRead(v: nat, base: nat, digits: string)
    requires 2 <= base <= 36 && digits == if v == 0 then ['0'] else Digits(v, base)
    ensures Parse(0, Reversed(digits), base) == v
  {
    if v == 0 {
      ParseOne(0, '0', base);
      assert Reversed(digits) == ['0'];
    } else {
      DigitsParse(v, base);
    }
  }

  lemma {:induction false} Assembled(neg: bool, v: nat, base: nat, digits: string, sign: string)
    requires |digits| > 0 && Parse(0, Reversed(digits), base) == v && sign == if neg then ['-'] else []
    requires forall i :: 0 <= i < |digits| ==> digits[i] != '-' && digits[i] != '\0'
    ensures var t := Reversed(digits + sign);
      && |t| > 0 && Parse(0, t, base) == v && (t[0] == '-' <==> neg)
      && (forall i :: 0 <= i < |t| ==> t[i] != '\0')
      && Reversed(['\0'] + (digits + sign)) == t + ['\0']
  {
    ReversedConcat(digits, sign);
    assert Reversed(sign) == sign;
    ParseAppend(0, sign, Reversed(digits), base);
    if neg {
      ParseOne(0, '-', base);
    }
    ReversedConcat(['\0'], digits + sign);
    assert Reversed(['\0']) == ['\0'];
  }

  lemma {:induction false} DigitsPlain(v: nat, base: nat, digits: string)
    requires 2 <= base <= 36 && digits == if v == 0 then ['0'] else Digits(v, base)
    ensures |digits| > 0 && forall i :: 0 <= i < |digits| ==> digits[i] != '-' && digits[i] != '\0'
  {
    forall i | 0 <= i < |digits|
      ensures digits[i] != '-' && digits[i] != '\0'
    {
      if v > 0 {
        DigitsFirst(v, base, i);
      }
    }
  }

  /** A character that may stand for a digit of the base in a text. */
  predicate PlainDigit(c: char, base: nat) {
    || ('0' <= c <= '9' && (c - '0') as int < base)
    || ('a' <= c <= 'z' && (c - 'a') as int + 10 < base)
  }

  lemma {:induction false} DigitsAre(v: nat, base: nat, i: nat)
    requires 2 <= base <= 36 && i < |Digits(v, base)|
    ensures PlainDigit(Digits(v, base)[i], base)
    ensures i == |Digits(v, base)| - 1 ==> Digits(v, base)[i] != '0'
    decreases i
  {
    DivFacts(v, base);
    Smaller(v, base);
    if i == 0 {
      TableIs(v % base);
      if v / base == 0 {
        assert base * (v / base) == 0;
      }
    } else {
      DigitsAre(v / base, base, i - 1);
    }
  }

  lemma {:induction false} TableIs(d: nat)
    requires d < 36
    ensures TABLE[d] as int == if d < 10 then '0' as int + d else 'a' as int + d - 10
  {
  }

  /** A text is a sign, if the number is negative, and digits of the base with letters
      in lower case; the first digit is zero only if it is the only one. */
  lemma {:induction false} TextIs(neg: bool, v: nat, base: nat, i: nat)
    requires 2 <= base <= 36 && i < |Text(neg, v, base)|
    ensures var t, start := Text(neg, v, base), if neg then 1 else 0;
      && (if i < start then t[i] == '-' else PlainDigit(t[i], base))
      && (i == start && t[i] == '0' ==> v == 0 && |t| == start + 1)
  {
    var b, digits := Backwards(neg, v, base, false), Body(v, base);
    var k := |b| - 1 - i;
    assert Text(neg, v, base)[i] == b[k];
    if k < |digits| {
      assert b[k] == digits[k];
      if v > 0 {
        DigitsAre(v, base, k);
      }
    }
  }

  // ---------- Printing ----------

  /** What fits of s into n characters. */
  function Fitting(s: string, n: nat): (t: string)
    ensures |t| <= n
  {
    if |s| <= n then s else s[..n]
  }

  lemma {:induction false} FittingSnoc(s: string, c: char, n: nat)
    ensures Fitting(s + [c], n) == if |s| < n then Fitting(s, n) + [c] else Fitting(s, n)
  {
    if |s| < n {
      assert Fitting(s, n) == s;
    } else {
      assert (s + [c])[..n] == s[..n];
    }
  }

  /** Append a character if there is room. */
  method PutChar(dst: array<char>, i: nat, n: nat, c: char, ghost s: string) returns (j: nat)
    requires n <= dst.Length && i == |Fitting(s, n)| && dst[..i] == Fitting(s, n)
    modifies dst
    ensures j == |Fitting(s + [c], n)| && dst[..j] == Fitting(s + [c], n)
    ensures forall k :: n <= k < dst.Length ==> dst[k] == old(dst[k])
  {
    FittingSnoc(s, c, n);
    j := i;
    if i < n {
      ghost var before := dst[..i];
      dst[i] := c;
      j := i + 1;
      assert dst[..j] == before + [c];
    } else {
      assert |s| >= n;
    }
  }

  method ReverseChars(dst: array<char>, n: nat)
    requires n <= dst.Length
    modifies dst
    ensures dst[..n] == Reversed(old(dst[..n]))
    ensures forall k :: n <= k < dst.Length ==> dst[k] == old(dst[k])
  {
    var i := 0;
    while i < n / 2
      invariant 0 <= i <= n / 2
      invariant forall k :: 0 <= k < i ==> dst[k] == old(dst[n - 1 - k]) && dst[n - 1 - k] == old(dst[k])
      invariant forall k :: i <= k < n - i ==> dst[k] == old(dst[k])
      invariant forall k :: n <= k < dst.Length ==> dst[k] == old(dst[k])
    {
      dst[i], dst[n - 1 - i] := dst[n - 1 - i], dst[i];
      i := i + 1;
    }
    ghost var was := old(dst[..n]);
    forall k | 0 <= k < n
      ensures dst[k] == was[n - 1 - k]
    {
    }
  }

  /** The digits of a number that is divided away. */
  method PutDigits(dst: array<char>, i0: nat, n: nat, tmp: Bigint, base: Word, ghost s0: string) returns (i: nat)
    requires n <= dst.Length && 2 <= base <= 36 && tmp.Valid()
    requires i0 == |Fitting(s0, n)| && dst[..i0] == Fitting(s0, n)
    modifies dst, tmp, tmp.words
    ensures i == |Fitting(s0 + Digits(old(tmp.Mag()), base), n)|
    ensures dst[..i] == Fitting(s0 + Digits(old(tmp.Mag()), base), n)
    ensures forall k :: n <= k < dst.Length ==> dst[k] == old(dst[k])
  {
    ghost var all, s := s0 + Digits(tmp.Mag(), base), s0;
    i := i0;
    while tmp.size > 0
      invariant tmp.Valid() && s + Digits(tmp.Mag(), base) == all && tmp.words == old(tmp.words)
      invariant i == |Fitting(s, n)| && dst[..i] == Fitting(s, n)
      invariant forall k :: n <= k < dst.Length ==> dst[k] == old(dst[k])
      decreases tmp.Mag()
    {
      ghost var v := tmp.Mag();
      tmp.SizeZero();
      var remainder := DivModHalfWord(tmp, base);
      NextDigit(v, base, tmp.Mag(), remainder, s);
      i := PutChar(dst, i, n, TABLE[remainder], s);
      s := s + [TABLE[remainder]];
    }
    tmp.SizeZero();
    assert s + [] == s;
  }

  lemma {:induction false} NextDigit(v: nat, base: nat, q: nat, r: nat, s: string)
    requires 2 <= base <= 36 && v > 0 && IsQuotient(v, base, q, r)
    ensures q < v && r < |TABLE| == 36 && s + Digits(v, base) == (s + [TABLE[r]]) + Digits(q, base)
  {
    QuotientMeans(v, base, q, r);
    Smaller(v, base);
    TableDigit(r);
    assert s + ([TABLE[r]] + Digits(q, base)) == (s + [TABLE[r]]) + Digits(q, base);
  }

  /** The digits from the lowest, or a single zero. */
  function Body(v: nat, base: nat): string
    requires 2 <= base <= 36
  {
    if v == 0 then ['0'] else Digits(v, base)
  }

  method PutBody(dst: array<char>, i0: nat, n: nat, a: Bigint, base: Word, ghost s0: string) returns (i: nat)
    requires n <= dst.Length && 2 <= base <= 36 && a.Valid()
    requires i0 == |Fitting(s0, n)| && dst[..i0] == Fitting(s0, n)
    modifies dst
    ensures i == |Fitting(s0 + Body(a.Mag(), base), n)| && dst[..i] == Fitting(s0 + Body(a.Mag(), base), n)
    ensures forall k :: n <= k < dst.Length ==> dst[k] == old(dst[k])
  {
    a.SizeZero();
    if a.size == 0 {
      i := PutChar(dst, i0, n, '0', s0);
    } else {
      var tmp := CopyOf(a);
      i := PutDigits(dst, i0, n, tmp, base, s0);
    }
  }

  /** Put the text there from its end. */
  method PutBackwards(dst: array<char>, n0: nat, a: Bigint, base: Word, terminate: bool) returns (i: nat)
    requires n0 <= dst.Length && a.Valid() && 2 <= base <= 36
    modifies dst
    ensures i <= n0 && dst[..i] == Fitting(Backwards(a.neg, a.Mag(), base, terminate), n0)
    ensures forall k :: n0 <= k < dst.Length ==> dst[k] == old(dst[k])
  {
    i := 0;
    ghost var s: string := [];
    if terminate {
      i := PutChar(dst, i, n0, '\0', s);
      s := ['\0'];
    }
    i := PutBody(dst, i, n0, a, base, s);
    s := s + Body(a.Mag(), base);
    if a.neg {
      i := PutChar(dst, i, n0, '-', s);
      s := s + ['-'];
    }
    BackwardsIs(a.neg, a.Mag(), base, terminate, s);
  }

  /** Print into at most n0 characters.  If they are too few, the ones at the front of
      the text are missing. */
  method WriteBase(dst: array<char>, n0: nat, a: Bigint, base: Word, terminate: bool) returns (n: nat)
    requires n0 <= dst.Length && a.Valid() && 2 <= base <= 36
    modifies dst
    ensures n <= n0 && dst[..n] == Reversed(Fitting(Backwards(a.neg, a.Mag(), base, terminate), n0))
    ensures forall k :: n0 <= k < dst.Length ==> dst[k] == old(dst[k])
  {
    n := PutBackwards(dst, n0, a, base, terminate);
    ReverseChars(dst, n);
  }

  lemma {:induction false} BackwardsIs(neg: bool, v: nat, base: nat, terminate: bool, s: string)
    requires 2 <= base <= 36
    requires var s0: string := if terminate then ['\0'] else [];
      s == if neg then s0 + Body(v, base) + ['-'] else s0 + Body(v, base)
    ensures s == Backwards(neg, v, base, terminate)
  {
  }

  // ---------- Parsing into a buffer ----------

  /** The text before the terminator. */
  function Terminated(s: string): string {
    if s == [] || s[0] == '\0' then [] else [s[0]] + Terminated(s[1..])
  }

  lemma {:induction false} TerminatedIs(t: string, rest: string)
    requires forall i :: 0 <= i < |t| ==> t[i] != '\0'
    ensures Terminated(t + ['\0'] + rest) == t
  {
    if t == [] {
      assert t + ['\0'] + rest == ['\0'] + rest;
    } else {
      assert (t + ['\0'] + rest)[1..] == t[1..] + ['\0'] + rest;
      TerminatedIs(t[1..], rest);
    }
  }

  /** The value so far, in a buffer that is zero above it. */
  predicate Held(s: seq<Word>, capacity: nat, n: nat, v: nat) {
    n <= capacity <= |s| && Number(s, 0, n, v) && ZeroWords(s, n, capacity)
  }

  /** Take one more digit in. */
  method TakeDigit(dst: array<Word>, capacity: nat, n0: nat, base: Word, digit: Word, ghost v: nat) returns (n: nat)
    requires Held(dst[..], capacity, n0, v) && Times(v, base) + digit < Pow(capacity)
    modifies dst
    ensures Held(dst[..], capacity, n, Times(v, base) + digit)
  {
    n := MulWord(dst, 0, capacity, dst, 0, n0, base);
    n := AddWord(dst, 0, capacity, n, digit);
  }

  /** The characters before i are read, and v is what they stand for. */
  predicate Reading(src: string, i: nat, v: nat, base: nat) {
    i < |src| && '\0' in src[i..] && Parse(v, Terminated(src[i..]), base) == Parse(0, Terminated(src), base)
  }

  lemma {:induction false} NextChar(src: string, i: nat, v: nat, base: nat)
    requires Reading(src, i, v, base) && base >= 1
    ensures src[i] == '\0' ==> v == Parse(0, Terminated(src), base)
    ensures src[i] != '\0' && WordFromChar(src[i]) == NO_DIGIT ==> Reading(src, i + 1, v, base)
    ensures src[i] != '\0' && WordFromChar(src[i]) != NO_DIGIT ==>
      Reading(src, i + 1, v * base + WordFromChar(src[i]), base)
      && Times(v, base) + WordFromChar(src[i]) == v * base + WordFromChar(src[i]) <= Parse(0, Terminated(src), base)
  {
    TimesIs(v, base);
    if src[i] != '\0' {
      assert src[i..] == [src[i]] + src[i + 1..];
      assert Terminated(src[i..])[1..] == Terminated(src[i + 1..]);
      ParseGrows(v * base + WordFromChar(src[i]), Terminated(src[i + 1..]), base);
    }
  }

  method RawFromStrBase(dst: array<Word>, capacity: nat, src: string, base: Word) returns (n: nat)
    requires Held(dst[..], capacity, 0, 0) && base >= 2 && '\0' in src && Parse(0, Terminated(src), base) < Pow(capacity)
    modifies dst
    ensures n <= capacity && Number(dst[..], 0, n, Parse(0, Terminated(src), base))
  {
    ghost var v: nat := 0;
    n := 0;
    var i := 0;
    assert src[0..] == src;
    while src[i] != '\0'
      invariant 0 <= i <= |src| && Reading(src, i, v, base) && Held(dst[..], capacity, n, v)
      decreases |src| - i
    {
      NextChar(src, i, v, base);
      var digit := WordFromChar(src[i]);
      i := i + 1;
      if digit != NO_DIGIT {
        n := TakeDigit(dst, capacity, n, base, digit, v);
        v := v * base + digit;
      }
    }
    NextChar(src, i, v, base);
  }

  /** Become the number a text stands for, given the words that its digits need. */
  method FromStrBase(dst: Bigint, src: string, base: Word, capacity: nat)
    requires dst.Valid() && base >= 2 && '\0' in src && Parse(0, Terminated(src), base) < Pow(capacity)
    modifies dst, dst.words
    ensures dst.Valid() && dst.Mag() == Parse(0, Terminated(src), base) && (dst.neg <==> src[0] == '-')
  {
    dst.Reserve(capacity);
    BigintRaw.Zero(dst.words, 0, capacity);
    dst.size := RawFromStrBase(dst.words, capacity, src, base);
    dst.neg := src[0] == '-';
  }

  lemma {:induction false} Embedded(src: string, n: nat, t: string)
    requires n <= |src| && src[..n] == t + ['\0'] && |t| > 0 && forall i :: 0 <= i < |t| ==> t[i] != '\0'
    ensures '\0' in src && Terminated(src) == t && src[0] == t[0]
  {
    assert src == src[..n] + src[n..];
    TerminatedIs(t, src[n..]);
    assert src[|t|] == '\0';
  }

  /** Print a number and parse the text: the same number. */
  method RoundTrip(a: Bigint, base: Word, room: nat, capacity: nat) returns (b: Bigint)
    requires a.Valid() && 2 <= base <= 36
    requires |Text(a.neg, a.Mag(), base)| < room && a.Mag() < Pow(capacity)
    ensures b.Valid() && b.Value() == a.Value() && b.neg == a.neg
  {
    var buffer := new char[room];
    TextRoundTrip(a.neg, a.Mag(), base);
    var n := WriteBase(buffer, room, a, base, true);
    var src := buffer[..];
    Embedded(src, n, Text(a.neg, a.Mag(), base));
    b := new Bigint();
    FromStrBase(b, src, base, capacity);
  }
}
