/**
  Shifting word buffers by bits, their bit length and their trailing zeros.
*/
module BigintShift {
  import opened Arith
  import opened RoundUp
  import opened Bits
  import opened BigintValue
  import opened BigintWords
  import opened BigintRaw

  function WordShl(a: Word, k: nat): Word { Wrap(Shl(a, k)) }

  function WordShr(a: Word, k: nat): (r: Word)
  {
    ShrShrinks(a, k);
    Shr(a, k)
  }

  lemma {:induction false} BaseIsPower()
    ensures Pow2(32) == BASE
  {
    Pow32();
  }

  /** What a left shift of a word loses is its high bits. */
  lemma {:induction false} WordSplit(a: Word, k: nat) returns (r: nat)
    requires 0 < k < 32
    ensures Shl(a, k) == WordShl(a, k) + BASE * Shr(a, 32 - k)
    ensures Shr(a, 32 - k) < Pow2(k) && WordShl(a, k) == Shl(r, k)
  {
    BaseIsPower();
    r := ShrSplit(a, 32 - k);
    var q := Shr(a, 32 - k);
    ShlAdd(Shl(q, 32 - k), r, k);
    ShlTwice(q, 32 - k, k);
    ShlIs(q, 32);
    ShlOne(32 - k);
    ShlTwice(1, 32 - k, k);
    ShlOne(32);
    ShlMonotone(r, Pow2(32 - k), k);
    DivModUnique(Shl(a, k), BASE, q, Shl(r, k));
    QuotientSmall(q, a, k);
  }

  lemma {:induction false} QuotientSmall(q: nat, a: Word, k: nat)
    requires k < 32 && Shl(q, 32 - k) <= a
    ensures q < Pow2(k)
  {
    if q >= Pow2(k) {
      ShlMonotone(Pow2(k), q, 32 - k);
      ShlOne(k);
      ShlTwice(1, k, 32 - k);
      ShlOne(32);
      BaseIsPower();
    }
  }

  // ---------- Left ----------

  /** Word j of x shifted left by k bits. */
  function LeftWord(x: Source, k: nat, j: nat): nat
    requires x.Valid() && 0 < k < 32
  {
    if j == 0 then WordShl(x.Word(0), k) else Or(WordShl(x.Word(j), k), WordShr(x.Word(j - 1), 32 - k))
  }

  /** The bits that word j - 1 hands to word j. */
  function Handed(x: Source, k: nat, j: nat): nat
    requires x.Valid() && 0 < k < 32
  {
    if j == 0 then 0 else WordShr(x.Word(j - 1), 32 - k)
  }

  lemma {:induction false} LeftStep(x: Source, k: nat, j: nat)
    requires x.Valid() && 0 < k < 32
    ensures LeftWord(x, k, j) < BASE
    ensures LeftWord(x, k, j) + BASE * Handed(x, k, j + 1) == Shl(x.Word(j), k) + Handed(x, k, j)
  {
    var r := WordSplit(x.Word(j), k);
    if j > 0 {
      var r' := WordSplit(x.Word(j - 1), k);
      OrDisjoint(r, Handed(x, k, j), k);
      BaseIsPower();
      JoinFits(r, Handed(x, k, j), k);
    }
  }

  lemma {:induction false} JoinFits(r: nat, c: nat, k: nat)
    requires k <= 32 && Shl(r, k) < Pow2(32) && c < Pow2(k)
    ensures Shl(r, k) + c < Pow2(32)
  {
    ShlOne(32 - k);
    ShlTwice(1, 32 - k, k);
    ShlOne(32);
    if r >= Pow2(32 - k) {
      ShlMonotone(Pow2(32 - k), r, k);
    }
    ShlMonotone(r, Pow2(32 - k), k);
  }

  lemma {:induction false} UpShl(v: nat, i: nat, k: nat)
    ensures Shl(Up(v, i), k) == Up(Shl(v, k), i)
    decreases k
  {
    if k > 0 {
      UpShl(v, i, k - 1);
      UpAdd(Shl(v, k - 1), Shl(v, k - 1), i);
    }
  }

  /** The words at d are the shifted ones. */
  predicate IsLeft(t: seq<Word>, d: nat, n: nat, x: Source, k: nat)
    requires x.Valid() && 0 < k < 32
  {
    d + n <= |t| && forall j :: d <= j < d + n ==> t[j] == LeftWord(x, k, j - d)
  }

  lemma {:induction false} LeftPrefix(t: seq<Word>, d: nat, n: nat, x: Source, k: nat, i: nat)
    requires x.Valid() && 0 < k < 32 && IsLeft(t, d, n, x, k) && i <= n
    ensures Num(t, d, i) + Up(Handed(x, k, i), i) == Shl(x.LowValue(i), k)
    decreases i
  {
    if i == 0 {
      ShlOne(k);
    } else {
      LeftPrefix(t, d, n, x, k, i - 1);
      LeftStep(x, k, i - 1);
      LeftColumn(t, d, x, k, i - 1, Handed(x, k, i - 1), Handed(x, k, i));
    }
  }

  lemma {:induction false} LeftColumn(t: seq<Word>, d: nat, x: Source, k: nat, j: nat, c: nat, c': nat)
    requires x.Valid() && d + j < |t| && t[d + j] + BASE * c' == Shl(x.Word(j), k) + c
    requires Num(t, d, j) + Up(c, j) == Shl(x.LowValue(j), k)
    ensures Num(t, d, j + 1) + Up(c', j + 1) == Shl(x.LowValue(j + 1), k)
  {
    NumSnoc(t, d, j);
    LowStep(x.words, x.o, x.n, j);
    ShlAdd(x.LowValue(j), Up(x.Word(j), j), k);
    UpShl(x.Word(j), j, k);
    UpOne(j);
    UpColumn(t[d + j], c', Shl(x.Word(j), k), c, 0, j);
  }

  lemma {:induction false} LeftValue(t: seq<Word>, d: nat, x: Source, k: nat)
    requires x.Valid() && 0 < k < 32 && IsLeft(t, d, x.n + 1, x, k)
    ensures Num(t, d, x.n + 1) == Shl(x.Value(), k)
  {
    LeftPrefix(t, d, x.n + 1, x, k, x.n + 1);
    assert Handed(x, k, x.n + 1) == WordShr(0, 32 - k);
    ShrShrinks(0, 32 - k);
    UpOne(x.n + 1);
  }

  /** Moving up by words is shifting left by 32 bits each. */
  lemma {:induction false} UpIsShl(v: nat, n: nat)
    ensures Up(v, n) == Shl(v, 32 * n)
    decreases n
  {
    if n > 0 {
      UpIsShl(v * BASE, n - 1);
      BaseIsPower();
      ShlIs(v, 32);
      ShlTwice(v, 32, 32 * (n - 1));
    }
  }

  lemma {:induction false} PowIsPow2(n: nat)
    ensures Pow(n) == Pow2(32 * n)
  {
    UpOne(n);
    UpIsShl(1, n);
    ShlOne(32 * n);
  }

  lemma {:induction false} Raised(t: seq<Word>, ws: nat, n: nat, v: nat, k: nat)
    requires ws + n <= |t| && ZeroWords(t, 0, ws) && Num(t, ws, n) == Shl(v, k)
    ensures Num(t, 0, ws + n) == Shl(v, k + 32 * ws)
  {
    NumSplit(t, 0, ws + n, ws);
    NumZero(t, 0, ws);
    UpIsShl(Shl(v, k), ws);
    ShlTwice(v, k, 32 * ws);
  }

  /** Shift left, in place if dst is src. */
  method ShiftLeft(dst: array<Word>, src: array<Word>, n: nat, shift: nat) returns (len: nat)
    requires n <= src.Length && n + shift / 32 + (if shift % 32 != 0 then 1 else 0) <= dst.Length
    modifies dst
    ensures len <= dst.Length && Number(dst[..], 0, len, Shl(Num(old(src[..]), 0, n), shift))
  {
    var ws, k := shift / 32, shift % 32;
    if k != 0 {
      len := ShiftLeftBits(dst, src, n, ws, k);
    } else {
      len := ShiftLeftWords(dst, src, n, ws);
    }
  }

  method ShiftLeftBits(dst: array<Word>, src: array<Word>, n: nat, ws: nat, k: nat) returns (len: nat)
    requires n <= src.Length && n + ws + 1 <= dst.Length && 0 < k < 32
    modifies dst
    ensures len <= dst.Length && Number(dst[..], 0, len, Shl(Num(old(src[..]), 0, n), k + 32 * ws))
  {
    ghost var x := Source(src[..], 0, n);
    var hi: Word := 0;
    var i := n + ws;
    while i > ws
      invariant ws <= i <= n + ws && hi == x.Word(i - ws)
      invariant forall j :: i < j <= n + ws ==> dst[j] == LeftWord(x, k, j - ws)
      invariant forall j :: 0 <= j < n && j < i ==> src[j] == x.words[j]
    {
      var lo := src[i - ws - 1];
      LeftStep(x, k, i - ws);
      dst[i] := Or(WordShl(hi, k), WordShr(lo, 32 - k));
      hi := lo;
      i := i - 1;
    }
    dst[i] := WordShl(hi, k);
    hi := 0;
    while i > 0
      invariant 0 <= i <= ws
      invariant forall j :: ws <= j <= n + ws ==> dst[j] == LeftWord(x, k, j - ws)
      invariant ZeroWords(dst[..], i, ws)
    {
      i := i - 1;
      WrapZero(k);
      dst[i] := WordShl(hi, k);
    }
    LeftValue(dst[..], ws, x, k);
    Raised(dst[..], ws, n + 1, x.Value(), k);
    len := Truncate(dst, 0, n + ws + 1);
  }

  lemma {:induction false} WrapZero(k: nat)
    ensures WordShl(0, k) == 0
  {
    ShlOne(k);
  }

  /** Move n words up by ws, from the top. */
  method MoveUp(dst: array<Word>, src: array<Word>, n: nat, ws: nat)
    requires n <= src.Length && n + ws <= dst.Length
    modifies dst
    ensures forall j :: ws <= j < n + ws ==> dst[j] == old(src[..])[j - ws]
  {
    ghost var x := src[..];
    var i := n + ws;
    while i > ws
      invariant ws <= i <= n + ws
      invariant forall j :: i <= j < n + ws ==> dst[j] == x[j - ws]
      invariant forall j :: 0 <= j < n && j < i ==> src[j] == x[j]
    {
      i := i - 1;
      dst[i] := src[i - ws];
    }
  }

  method ShiftLeftWords(dst: array<Word>, src: array<Word>, n: nat, ws: nat) returns (len: nat)
    requires n <= src.Length && n + ws <= dst.Length
    modifies dst
    ensures len <= dst.Length && Number(dst[..], 0, len, Shl(Num(old(src[..]), 0, n), 32 * ws))
  {
    ghost var x := src[..];
    MoveUp(dst, src, n, ws);
    Zero(dst, 0, ws);
    MovedUp(dst[..], ws, n, x);
    len := Truncate(dst, 0, n + ws);
  }

  lemma {:induction false} MovedUp(t: seq<Word>, ws: nat, n: nat, x: seq<Word>)
    requires ws + n <= |t| && n <= |x| && ZeroWords(t, 0, ws) && forall j :: ws <= j < n + ws ==> t[j] == x[j - ws]
    ensures Num(t, 0, n + ws) == Shl(Num(x, 0, n), 32 * ws)
  {
    NumSame(t, ws, x, 0, n);
    Raised(t, ws, n, Num(x, 0, n), 0);
  }

  // ---------- Right ----------

  /** Word j of x shifted right by k bits, less than a word. */
  function RightWord(x: Source, k: nat, j: nat): nat
    requires x.Valid() && 0 < k < 32
  {
    if j + 1 < x.n then Or(WordShl(x.Word(j + 1), 32 - k), WordShr(x.Word(j), k)) else WordShr(x.Word(j), k)
  }

  /** The low k bits of word j, which the shift drops or hands down. */
  function Dropped(x: Source, k: nat, j: nat): nat
    requires x.Valid() && 0 < k < 32
  {
    var w := x.Word(j);
    if Shl(Shr(w, k), k) <= w then w - Shl(Shr(w, k), k) else 0
  }

  lemma {:induction false} DroppedIs(x: Source, k: nat, j: nat)
    requires x.Valid() && 0 < k < 32
    ensures x.Word(j) == Shl(Shr(x.Word(j), k), k) + Dropped(x, k, j) && Dropped(x, k, j) < Pow2(k)
  {
    var r := ShrSplit(x.Word(j), k);
  }

  lemma {:induction false} RightStep(x: Source, k: nat, j: nat)
    requires x.Valid() && 0 < k < 32
    ensures RightWord(x, k, j) < BASE
    ensures Shl(RightWord(x, k, j), k) + Dropped(x, k, j) ==
      x.Word(j) + BASE * (if j + 1 < x.n then Dropped(x, k, j + 1) else 0)
  {
    DroppedIs(x, k, j);
    if j + 1 < x.n {
      RightJoined(x, k, j);
      var r, q := Dropped(x, k, j + 1), Shr(x.Word(j), k);
      ShlAdd(Shl(r, 32 - k), q, k);
      ShlTwice(r, 32 - k, k);
      ShlBase(r);
    }
  }

  /** A shifted word holds the next word's low bits above its own high ones. */
  lemma {:induction false} RightJoined(x: Source, k: nat, j: nat)
    requires x.Valid() && 0 < k < 32 && j + 1 < x.n
    ensures RightWord(x, k, j) == Shl(Dropped(x, k, j + 1), 32 - k) + Shr(x.Word(j), k) < BASE
  {
    DroppedIs(x, k, j + 1);
    var r := WordSplit(x.Word(j + 1), 32 - k);
    var q := Shr(x.Word(j), k);
    var r' := WordSplit(x.Word(j), 32 - k);
    LowBits(x.Word(j + 1), k, r, Dropped(x, k, j + 1));
    OrDisjoint(r, q, 32 - k);
    BaseIsPower();
    JoinFits(r, q, 32 - k);
  }

  /** The bits a left shift by 32 - k keeps are the k low ones. */
  lemma {:induction false} LowBits(w: Word, k: nat, r: nat, low: nat)
    requires 0 < k < 32 && w == Shl(Shr(w, k), k) + low && low < Pow2(k)
    requires Shl(w, 32 - k) == Shl(r, 32 - k) + BASE * Shr(w, k) && Shl(r, 32 - k) < BASE
    ensures r == low
  {
    var q := Shr(w, k);
    ShlAdd(Shl(q, k), low, 32 - k);
    ShlTwice(q, k, 32 - k);
    ShlBase(q);
    assert Shl(r, 32 - k) == Shl(low, 32 - k);
    ShlMonotone(r, low, 32 - k);
    ShlMonotone(low, r, 32 - k);
  }

  predicate IsRight(t: seq<Word>, n: nat, x: Source, k: nat)
    requires x.Valid() && 0 < k < 32
  {
    n <= |t| && forall j :: 0 <= j < n ==> t[j] == RightWord(x, k, j)
  }

  lemma {:induction false} RightPrefix(t: seq<Word>, n: nat, x: Source, k: nat, i: nat)
    requires x.Valid() && 0 < k < 32 && n == x.n > 0 && IsRight(t, n, x, k) && i <= n
    ensures Shl(Num(t, 0, i), k) + Dropped(x, k, 0) == x.LowValue(i) + Up(if i < n then Dropped(x, k, i) else 0, i)
    decreases i
  {
    if i == 0 {
      ShlOne(k);
    } else {
      var j := i - 1;
      RightPrefix(t, n, x, k, j);
      RightStep(x, k, j);
      NumSnoc(t, 0, j);
      LowStep(x.words, x.o, x.n, j);
      ShlAdd(Num(t, 0, j), Up(t[j], j), k);
      UpShl(t[j], j, k);
      var c := if i < n then Dropped(x, k, i) else 0;
      UpOne(j);
      UpColumn(x.Word(j), c, Shl(t[j], k), Dropped(x, k, j), 0, j);
    }
  }

  lemma {:induction false} RightValue(t: seq<Word>, x: Source, k: nat)
    requires x.Valid() && 0 < k < 32 && x.n > 0 && IsRight(t, x.n, x, k)
    ensures Num(t, 0, x.n) == Shr(x.Value(), k)
  {
    RightPrefix(t, x.n, x, k, x.n);
    UpOne(x.n);
    DroppedIs(x, k, 0);
    ShrOf(Num(t, 0, x.n), Dropped(x, k, 0), k);
  }

  /** Dropping whole words, and then bits. */
  lemma {:induction false} DropWords(s: seq<Word>, n: nat, ws: nat, k: nat)
    requires ws <= n <= |s|
    ensures Shr(Num(s, 0, n), k + 32 * ws) == Shr(Num(s, ws, n - ws), k)
  {
    NumSplit(s, 0, n, ws);
    NumBound(s, 0, ws);
    PowIsPow2(ws);
    UpIsShl(Num(s, ws, n - ws), ws);
    ShrOf(Num(s, ws, n - ws), Num(s, 0, ws), 32 * ws);
    ShrTwice(Num(s, 0, n), 32 * ws, k);
  }

  /** Shift right, in place if dst is src.  A shift by part of a word needs a word
      to start with. */
  method ShiftRight(dst: array<Word>, src: array<Word>, n: nat, shift: nat) returns (len: nat)
    requires n <= src.Length && n <= dst.Length && (shift % 32 != 0 ==> shift / 32 < n)
    modifies dst
    ensures len <= n && Number(dst[..], 0, len, Shr(Num(old(src[..]), 0, n), shift))
  {
    var ws, k := shift / 32, shift % 32;
    if k != 0 {
      len := ShiftRightBits(dst, src, n, ws, k);
    } else {
      len := ShiftRightWords(dst, src, n, ws);
    }
  }

  method ShiftRightBits(dst: array<Word>, src: array<Word>, n: nat, ws: nat, k: nat) returns (len: nat)
    requires ws < n <= src.Length && n <= dst.Length && 0 < k < 32
    modifies dst
    ensures len <= n && Number(dst[..], 0, len, Shr(Num(old(src[..]), 0, n), k + 32 * ws))
  {
    ghost var x, words := Source(src[..], ws, n - ws), src[..];
    var lo := src[ws];
    var i := 0;
    while i < n - ws - 1
      invariant 0 <= i <= n - ws - 1 && lo == x.Word(i)
      invariant IsRight(dst[..], i, x, k)
      invariant forall j :: ws + i < j < n ==> src[j] == words[j]
    {
      var hi := src[i + ws + 1];
      RightStep(x, k, i);
      dst[i] := Or(WordShl(hi, 32 - k), WordShr(lo, k));
      lo := hi;
      i := i + 1;
    }
    dst[i] := WordShr(lo, k);
    i := i + 1;
    RightValue(dst[..], x, k);
    DropWords(words, n, ws, k);
    len := Truncate(dst, 0, i);
  }

  method ShiftRightWords(dst: array<Word>, src: array<Word>, n: nat, ws: nat) returns (len: nat)
    requires n <= src.Length && n <= dst.Length
    modifies dst
    ensures len <= n && Number(dst[..], 0, len, Shr(Num(old(src[..]), 0, n), 32 * ws))
  {
    ghost var x := src[..];
    var i := 0;
    while i < n - ws
      invariant 0 <= i && (i <= n - ws || i == 0)
      invariant forall j :: 0 <= j < i ==> dst[j] == x[j + ws]
      invariant forall j :: ws + i <= j < n ==> src[j] == x[j]
    {
      dst[i] := src[i + ws];
      i := i + 1;
    }
    if ws <= n {
      NumSame(dst[..], 0, x, ws, n - ws);
      DropWords(x, n, ws, 0);
    } else {
      NumBound(x, 0, n);
      PowGrows(n, ws);
      PowIsPow2(ws);
      ShrToZero(Num(x, 0, n), 32 * ws);
    }
    len := Truncate(dst, 0, i);
  }

  // ---------- Bit length and trailing zeros ----------

  method WordBitLength(a: Word) returns (n: nat)
    ensures HasBits(a, n) && n <= 32
  {
    BaseIsPower();
    var i := 31;
    while i >= 0
      invariant -1 <= i <= 31 && a < Pow2(i + 1)
    {
      if WordShr(a, i) % 2 == 1 {
        TopBit(a, i);
        return i + 1;
      }
      NotTopBit(a, i);
      i := i - 1;
    }
    n := 0;
  }

  lemma {:induction false} TopBit(a: nat, i: nat)
    requires Shr(a, i) % 2 == 1
    ensures a >= Pow2(i)
  {
    if a < Pow2(i) {
      ShrToZero(a, i);
    }
  }

  lemma {:induction false} NotTopBit(a: nat, i: nat)
    requires a < Pow2(i + 1) && Shr(a, i) % 2 == 0
    ensures a < Pow2(i)
  {
    if a >= Pow2(i) {
      HighestBit(a, i + 1);
    }
  }

  /** The number of bits of a number without leading zero words. */
  method BitLengthOf(a: array<Word>, n: nat, ghost v: nat) returns (len: nat)
    requires Number(a[..], 0, n, v)
    ensures HasBits(v, len)
  {
    if n == 0 {
      return 0;
    }
    var last := n - 1;
    var top := WordBitLength(a[last]);
    TopWord(a[..], last, v, top);
    len := top + last * 32;
  }

  lemma {:induction false} TopWord(s: seq<Word>, last: nat, v: nat, top: nat)
    requires Number(s, 0, last + 1, v) && HasBits(s[last], top)
    ensures HasBits(v, top + 32 * last)
  {
    NumSnoc(s, 0, last);
    NumBound(s, 0, last);
    UpIsShl(s[last], last);
    PowIsPow2(last);
    ShlMonotone(Pow2(top - 1), s[last], 32 * last);
    ShlMonotone(s[last], Pow2(top), 32 * last);
    ShlOne(top - 1);
    ShlOne(top);
    ShlTwice(1, top - 1, 32 * last);
    ShlTwice(1, top, 32 * last);
    ShlOne(top - 1 + 32 * last);
    ShlOne(top + 32 * last);
  }

  method WordTrailingZeros(a: Word) returns (k: nat)
    ensures a != 0 ==> k < 32 && TrailingZeros(a, k)
    ensures a == 0 ==> k == 32
  {
    k := 0;
    while k < 32
      invariant k <= 32 && a == Shl(Shr(a, k), k)
    {
      if WordShr(a, k) % 2 == 1 {
        TopBit(a, k);
        return;
      }
      ShrTwice(a, k, 1);
      assert Shr(Shr(a, k), 1) == Shr(a, k) / 2;
      ShlTwice(Shr(a, k + 1), 1, k);
      assert Shl(Shr(a, k + 1), 1) == Shr(a, k);
      k := k + 1;
    }
    BaseIsPower();
    ShrToZero(a, 32);
    ShlOne(32);
  }

  /** The number of trailing zero bits; all bits of the buffer if the number is zero. */
  method CountTrailingZeros(a: array<Word>, n: nat) returns (k: nat)
    requires n <= a.Length
    ensures Num(a[..], 0, n) == 0 ==> k == 32 * n
    ensures Num(a[..], 0, n) != 0 ==> TrailingZeros(Num(a[..], 0, n), k) && k / 32 < n
  {
    var i := 0;
    while i < n
      invariant 0 <= i <= n && ZeroWords(a[..], 0, i)
    {
      var w := a[i];
      if w != 0 {
        var z := WordTrailingZeros(w);
        LowestWord(a[..], n, i, z);
        return z + i * 32;
      }
      i := i + 1;
    }
    NumZero(a[..], 0, n);
    k := n * 32;
  }

  lemma {:induction false} LowestWord(s: seq<Word>, n: nat, i: nat, z: nat)
    requires i < n <= |s| && ZeroWords(s, 0, i) && z < 32 && TrailingZeros(s[i], z) && s[i] != 0
    ensures Num(s, 0, n) != 0 && TrailingZeros(Num(s, 0, n), z + 32 * i)
  {
    var rest := Num(s, i + 1, n - i - 1);
    LowestBit(s[i], z, rest);
    var half := Shr(s[i], z) + Shl(rest, 32 - z);
    NumSplit(s, 0, n, i);
    NumZero(s, 0, i);
    UpIsShl(Shl(half, z), i);
    ShlTwice(half, z, 32 * i);
    OddShifted(half, z + 32 * i);
  }

  lemma {:induction false} LowestBit(w: Word, z: nat, rest: nat)
    requires z < 32 && TrailingZeros(w, z)
    ensures var half := Shr(w, z) + Shl(rest, 32 - z);
      w + BASE * rest == Shl(half, z) && half % 2 == 1
  {
    var top := Shr(w, z);
    ShlBase(rest);
    ShlTwice(rest, 32 - z, z);
    ShlAdd(top, Shl(rest, 32 - z), z);
    ShlDoubled(rest, 31 - z);
    EvenAdded(top, Shl(rest, 31 - z));
  }

  lemma {:induction false} ShlBase(v: nat)
    ensures Shl(v, 32) == BASE * v
  {
    BaseIsPower();
    ShlIs(v, 32);
  }

  lemma {:induction false} EvenAdded(a: nat, b: nat)
    requires a % 2 == 1
    ensures (a + 2 * b) % 2 == 1
  {
  }

  lemma {:induction false} OddShifted(half: nat, k: nat)
    requires half % 2 == 1
    ensures Shl(half, k) != 0 && TrailingZeros(Shl(half, k), k)
  {
    PowPositive(k);
    ShrOf(half, 0, k);
    ShlMonotone(0, half, k);
  }

  lemma {:induction false} PowPositive(k: nat)
    ensures Pow2(k) > 0
  {
  }
}
