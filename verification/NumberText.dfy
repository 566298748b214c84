/** Printing numbers in a field, and reading them back. */
module NumberText {

  const WORD: nat := 0x1_0000_0000
  const UINTMAX: nat := 0x1_0000_0000_0000_0000
  const BUFFER: nat := 12

  /** The bases the printer uses. */
  predicate BaseOk(base: nat) {
    base == 8 || base == 10 || base == 16
  }

  // ---- Digits ----

  function DigitChar(d: nat, upper: bool): char
    requires d < 16
  {
    if d < 10 then ('0' as int + d) as char else ((if upper then 'A' else 'a') as int + d - 10) as char
  }

  /** The value of a digit; -1 for any other character. */
  function DigitVal(c: char): int {
    if '0' <= c <= '9' then c as int - '0' as int
    else if 'A' <= c <= 'Z' then c as int - 'A' as int + 10
    else if 'a' <= c <= 'z' then c as int - 'a' as int + 10
    else -1
  }

  lemma DigitBack(d: nat, upper: bool)
    requires d < 16
    ensures DigitVal(DigitChar(d, upper)) == d && DigitChar(d, upper) != '\0'
  {
  }

  predicate IsDigit(c: char, base: nat) {
    0 <= DigitVal(c) < base
  }

  /** The number that a string of digits stands for. */
  function Value(s: string, base: nat): nat {
    if s == [] then 0
    else Value(s[..|s| - 1], base) * base + (if DigitVal(s[|s| - 1]) < 0 then 0 else DigitVal(s[|s| - 1]))
  }

  predicate AllDigits(s: string, base: nat) {
    forall i :: 0 <= i < |s| ==> IsDigit(s[i], base)
  }

  function Pow(base: nat, k: nat): nat {
    if k == 0 then 1 else base * Pow(base, k - 1)
  }

  lemma {:induction false} PowPositive(base: nat, k: nat)
    requires base > 0
    ensures Pow(base, k) > 0
  {
    if k > 0 {
      PowPositive(base, k - 1);
    }
  }

  lemma {:induction false} PowAtLeast(base: nat, k: nat)
    requires base >= 8
    ensures Pow(base, k) >= Pow(8, k) && Pow(8, k) > 0
  {
    if k > 0 {
      PowAtLeast(base, k - 1);
      Times(base, Pow(base, k - 1), 8, Pow(8, k - 1));
    }
  }

  lemma Times(a: nat, b: nat, c: nat, d: nat)
    requires a >= c && b >= d
    ensures a * b >= c * d
  {
    assert a * b >= c * b;
    assert c * b >= c * d;
  }

  lemma {:induction false} EightGrows(k: nat)
    requires k >= 11
    ensures Pow(8, k) >= 2 * WORD
  {
    if k > 11 {
      EightGrows(k - 1);
    } else {
      assert Pow(8, 4) == 0x1000 by { assert Pow(8, 2) == 64; }
      assert Pow(8, 8) == 0x100_0000 by { assert Pow(8, 6) == 0x4_0000; }
      assert Pow(8, 10) == 0x4000_0000;
    }
  }

  /** No 32-bit number has more than 11 digits. */
  lemma FewDigits(base: nat, w: nat, num: nat)
    requires BaseOk(base) && num < WORD && w >= 1 && (w == 1 || Pow(base, w - 1) <= num)
    ensures w <= 11
  {
    if w > 11 {
      PowAtLeast(base, w - 1);
      EightGrows(w - 1);
    }
  }

  /** The numeral of `num`: its digits, without leading zeros. */
  ghost predicate IsNumeral(s: string, num: nat, base: nat) {
    s != [] && AllDigits(s, base) && Value(s, base) == num && (|s| > 1 ==> DigitVal(s[0]) != 0)
  }

  lemma ValueSnoc(s: string, d: nat, upper: bool, base: nat)
    requires d < base <= 16
    ensures Value(s + [DigitChar(d, upper)], base) == Value(s, base) * base + d
    ensures AllDigits(s, base) ==> AllDigits(s + [DigitChar(d, upper)], base)
  {
    DigitBack(d, upper);
    assert (s + [DigitChar(d, upper)])[..|s|] == s;
  }

  predicate SumIs(v: nat, weight: nat, rest: nat, num: nat) {
    v * weight + rest == num && rest < weight
  }

  /** What is written so far and the rest of the number make up the number. */
  ghost predicate Remaining(s: string, base: nat, w: nat, d: nat, rest: nat, num: nat) {
    && AllDigits(s, base) && SumIs(Value(s, base), Pow(base, w), rest, num)
    && d == (if w == 0 then 0 else Pow(base, w - 1))
    && (s == [] ==> w >= 1 && (w == 1 || Pow(base, w - 1) <= rest))
    && (|s| > 1 || (s != [] && w > 0) ==> DigitVal(s[0]) != 0)
  }

  /** One digit of the rest, and what is left of it. */
  predicate Splits(base: nat, d: nat, rest: nat, c: nat, r: nat, e: nat) {
    d > 0 && base > 0 && c == rest / d && r == rest % d && e == d / base && c < base
  }

  /** One digit moves from the rest to the text. */
  lemma DigitMoves(s: string, base: nat, w: nat, d: nat, rest: nat, num: nat, upper: bool, c: nat, r: nat, e: nat)
    requires BaseOk(base) && Remaining(s, base, w, d, rest, num) && w >= 1 && Splits(base, d, rest, c, r, e) && c < base
    ensures s == [] && c == 0 ==> w == 1
    ensures c < 16 && Remaining(s + [DigitChar(c, upper)], base, w - 1, e, r, num)
  {
    hide Value, AllDigits, DigitChar, DigitVal, SumIs, Splits;
    PowStep(base, w);
    NextWeight(base, w, d, rest, c, r, e);
    hide Pow;
    MoveSum(Value(s, base), base, d, rest, num, c, r, e);
    ValueSnoc(s, c, upper, base);
    DigitBack(c, upper);
    if s == [] && w >= 2 {
      FirstNonZero(base, d, rest, c, r, e);
    }
  }

  lemma RestBelow(s: string, base: nat, w: nat, d: nat, rest: nat, num: nat)
    requires BaseOk(base) && Remaining(s, base, w, d, rest, num) && w >= 1
    ensures d > 0 && rest < base * d
  {
    hide Value, AllDigits;
    PowPositive(base, w - 1);
    PowStep(base, w);
  }

  lemma SplitsOff(base: nat, d: nat, rest: nat)
    requires base > 0 && d > 0 && rest < base * d
    ensures rest / d < base && Splits(base, d, rest, rest / d, rest % d, d / base)
  {
    DivBelow(rest, d, base);
  }

  lemma MoveSum(v: nat, base: nat, d: nat, rest: nat, num: nat, c: nat, r: nat, e: nat)
    requires SumIs(v, base * d, rest, num) && Splits(base, d, rest, c, r, e)
    ensures SumIs(v * base + c, d, r, num)
  {
    DivBelow(rest, d, base);
    Regroup(v, base, rest / d, d, rest % d);
  }

  lemma FirstNonZero(base: nat, d: nat, rest: nat, c: nat, r: nat, e: nat)
    requires Splits(base, d, rest, c, r, e) && d <= rest
    ensures c > 0
  {
    DivAtLeastOne(rest, d);
  }

  lemma NextWeight(base: nat, w: nat, d: nat, rest: nat, c: nat, r: nat, e: nat)
    requires BaseOk(base) && w >= 1 && d == Pow(base, w - 1) && Splits(base, d, rest, c, r, e)
    ensures e == if w == 1 then 0 else Pow(base, w - 2)
  {
    if w >= 2 {
      PowStep(base, w - 1);
      ExactDiv(Pow(base, w - 2), base);
    } else {
      PowOne(base);
      OneDiv(base);
    }
  }

  lemma OneDiv(base: nat)
    requires base > 1
    ensures 1 / base == 0
  {
  }

  lemma DivBelow(n: nat, d: nat, b: nat)
    requires d > 0 && n < b * d
    ensures n / d < b && n == d * (n / d) + n % d && n % d < d
  {
    if n / d >= b {
      Times(n / d, d, b, d);
    }
  }

  lemma DivAtLeastOne(n: nat, d: nat)
    requires 0 < d <= n
    ensures n / d >= 1
  {
  }

  lemma ExactDiv(p: nat, base: nat)
    requires base > 0
    ensures base * p / base == p
  {
    var n := base * p;
    var q := n / base;
    assert n == base * q + n % base;
    assert base * (q + 1) == base * q + base && base * (p + 1) == base * p + base;
    if q < p {
      Times(base, p, base, q + 1);
    } else if q > p {
      Times(base, q, base, p + 1);
    }
  }

  lemma Regroup(v: nat, base: nat, c: nat, d: nat, r: nat)
    ensures v * (base * d) + (d * c + r) == (v * base + c) * d + r
  {
    assert (v * base + c) * d == v * base * d + c * d;
    assert v * base * d == v * (base * d);
  }

  lemma TopFound(num: nat, d: nat, base: nat)
    requires d > 0 && base > 0
    ensures if num / d >= base then d * base <= num else num < base * d
  {
    var q := num / d;
    assert num == d * q + num % d && num % d < d;
    if q >= base {
      Times(d, q, d, base);
    } else {
      Times(d, base, d, q + 1);
      assert d * (q + 1) == d * q + d;
    }
  }

  /** Writes the numeral of `num` to the buffer, with a terminator. */
  method Ui2a(num: nat, base: nat, upper: bool, bf: array<char>) returns (n: nat)
    requires num < WORD && BaseOk(base) && bf.Length == BUFFER
    modifies bf
    ensures n < BUFFER && bf[n] == '\0' && IsNumeral(bf[..n], num, base)
    ensures forall i :: 0 <= i < n ==> bf[i] != '\0'
  {
    hide Pow, Value, AllDigits, DigitChar, DigitVal, Remaining, Splits;
    var d: nat, rest: nat := 1, num;
    ghost var w: nat := 1;
    PowOne(base);
    while num / d >= base
      invariant d >= 1 && w >= 1 && d == Pow(base, w - 1) && (w == 1 || d <= num)
      decreases num - d
    {
      TopFound(num, d, base);
      PowStep(base, w);
      d := d * base;
      w := w + 1;
    }
    TopFound(num, d, base);
    FewDigits(base, w, num);
    StartRemaining(num, base, w, d);
    n := 0;
    ghost var text := "";
    while d != 0
      invariant n == |text| && n + w <= 11 && text == bf[..n] && Remaining(text, base, w, d, rest, num)
      invariant d != 0 ==> w > 0
      invariant d == 0 ==> w == 0 && n > 0
      invariant forall i :: 0 <= i < n ==> bf[i] != '\0'
      decreases w
    {
      RestBelow(text, base, w, d, rest, num);
      SplitsOff(base, d, rest);
      var dgt := rest / d;
      DigitMoves(text, base, w, d, rest, num, upper, dgt, rest % d, d / base);
      rest := rest % d;
      d := d / base;
      DigitBack(dgt, upper);
      if n != 0 || dgt > 0 || d == 0 {
        bf[n] := DigitChar(dgt, upper);
        n := n + 1;
      }
      text := text + [DigitChar(dgt, upper)];
      w := w - 1;
      WeightLeft(text, base, w, d, rest, num);
    }
    bf[n] := '\0';
    Finished(text, base, rest, num);
  }

  lemma PowOne(base: nat)
    ensures Pow(base, 0) == 1
  {
  }

  lemma PowStep(base: nat, w: nat)
    requires w >= 1
    ensures Pow(base, w) == base * Pow(base, w - 1)
  {
  }

  lemma StartRemaining(num: nat, base: nat, w: nat, d: nat)
    requires w >= 1 && d == Pow(base, w - 1) && num < base * d && (w == 1 || d <= num)
    ensures Remaining("", base, w, d, num, num)
  {
  }

  lemma WeightLeft(s: string, base: nat, w: nat, d: nat, rest: nat, num: nat)
    requires BaseOk(base) && Remaining(s, base, w, d, rest, num)
    ensures d == 0 <==> w == 0
  {
    if w > 0 {
      PowPositive(base, w - 1);
    }
  }

  lemma Finished(s: string, base: nat, rest: nat, num: nat)
    requires Remaining(s, base, 0, 0, rest, num) && s != []
    ensures IsNumeral(s, num, base)
  {
  }

  // ---- Fields ----

  /** How a number is shown. */
  datatype Style = Style(width: nat, zeros: bool, negative: bool, alt: bool, base: nat, upper: bool)

  function Copies(n: int, c: char): (s: string)
    ensures |s| == (if n > 0 then n else 0) && forall i :: 0 <= i < |s| ==> s[i] == c
  {
    if n > 0 then seq(n, _ => c) else ""
  }

  function SignText(p: Style): string {
    if p.negative then "-" else ""
  }

  function PrefixText(p: Style): string {
    if p.alt && p.base == 16 then ['0', if p.upper then 'X' else 'x'] else if p.alt && p.base == 8 then "0" else ""
  }

  /** The field: sign, prefix and digits, filled up on the left with spaces, or with zeros between
      prefix and digits. */
  function Field(digits: string, p: Style): string {
    var pad := p.width - |digits| - |SignText(p)| - |PrefixText(p)|;
    if p.zeros then SignText(p) + PrefixText(p) + Copies(pad, '0') + digits
    else Copies(pad, ' ') + SignText(p) + PrefixText(p) + digits
  }

  lemma MoreCopies(n: nat, c: char)
    ensures Copies(n + 1, c) == Copies(n, c) + [c]
  {
  }

  /** Appends `n` copies of a character. */
  method PutFill(put: string, n: int, c: char) returns (out: string)
    ensures out == put + Copies(n, c)
  {
    out := put;
    var k := 0;
    while k < n
      invariant 0 <= k && (if n > 0 then k <= n else k == 0) && out == put + Copies(k, c)
    {
      MoreCopies(k, c);
      out := out + [c];
      k := k + 1;
    }
    assert n <= 0 ==> Copies(n, c) == Copies(0, c) == [];
  }

  /** How many fill characters remain for the text in the buffer. */
  method FillLeft(bf: array<char>, ghost len: nat, p: Style) returns (n: int)
    requires len < bf.Length && bf[len] == '\0' && forall i :: 0 <= i < len ==> bf[i] != '\0'
    ensures var pad := p.width - len - |SignText(p)| - |PrefixText(p)|;
            if pad > 0 then n == pad else n <= 0
  {
    n := p.width;
    var i := 0;
    while bf[i] != '\0' && n > 0
      invariant 0 <= i <= len && n == p.width - i >= 0
      decreases n
    {
      n := n - 1;
      i := i + 1;
    }
    if p.negative {
      n := n - 1;
    }
    if p.alt && p.base == 16 {
      n := n - 2;
    } else if p.alt && p.base == 8 {
      n := n - 1;
    }
  }

  method PutText(put: string, bf: array<char>, ghost len: nat) returns (out: string)
    requires len < bf.Length && bf[len] == '\0' && forall i :: 0 <= i < len ==> bf[i] != '\0'
    ensures out == put + bf[..len]
  {
    out := put;
    var i := 0;
    while bf[i] != '\0'
      invariant 0 <= i <= len && out == put + bf[..i]
      decreases len - i
    {
      out := out + [bf[i]];
      i := i + 1;
    }
  }

  /** Puts out the text in the buffer as a field. */
  method Putchw(bf: array<char>, ghost len: nat, p: Style) returns (out: string)
    requires len < bf.Length && bf[len] == '\0' && forall i :: 0 <= i < len ==> bf[i] != '\0'
    ensures out == Field(bf[..len], p)
  {
    hide Copies, SignText, PrefixText;
    var n := FillLeft(bf, len, p);
    ghost var pad := p.width - len - |SignText(p)| - |PrefixText(p)|;
    SameCopies(n, pad, '0');
    SameCopies(n, pad, ' ');
    out := "";
    if !p.zeros {
      out := PutFill(out, n, ' ');
    }
    ghost var first := if p.zeros then "" else Copies(pad, ' ');
    assert out == first;
    out := PutMarks(out, p);
    if p.zeros {
      out := PutFill(out, n, '0');
      assert first + SignText(p) == SignText(p);
    }
    out := PutText(out, bf, len);
  }

  /** Appends the sign and the prefix. */
  method PutMarks(put: string, p: Style) returns (out: string)
    ensures out == put + SignText(p) + PrefixText(p)
  {
    out := put;
    if p.negative {
      out := out + ['-'];
    }
    assert out == put + SignText(p);
    if p.alt && p.base == 16 {
      ghost var signed := out;
      out := out + ['0'];
      out := out + [if p.upper then 'X' else 'x'];
      assert out == signed + PrefixText(p);
    } else if p.alt && p.base == 8 {
      out := out + ['0'];
    }
  }

  lemma SameCopies(n: int, pad: int, c: char)
    requires if pad > 0 then n == pad else n <= 0
    ensures Copies(n, c) == Copies(pad, c)
  {
  }

  // ---- Reading ----

  predicate IsSpace(c: char) {
    c == ' ' || c == '\n' || c == '\t' || c == '\r'
  }

  function SpaceEnd(s: string, i: nat): (r: nat)
    requires i <= |s|
    ensures i <= r <= |s|
    decreases |s| - i
  {
    if i < |s| && IsSpace(s[i]) then SpaceEnd(s, i + 1) else i
  }

  function RunEnd(s: string, i: nat, base: nat): (r: nat)
    requires i <= |s|
    ensures i <= r <= |s|
    decreases |s| - i
  {
    if i < |s| && IsDigit(s[i], base) then RunEnd(s, i + 1, base) else i
  }

  predicate HexMark(s: string, i: nat) {
    i + 2 <= |s| && s[i] == '0' && (s[i + 1] == 'x' || s[i + 1] == 'X')
  }

  /** The base to read in, and how many characters announce it. */
  function BaseMark(s: string, i: nat, base: nat): (r: (nat, nat))
    requires i <= |s|
    ensures i + r.1 <= |s|
  {
    if base == 0 then
      if HexMark(s, i) then (16, 2) else if i < |s| && s[i] == '0' then (8, 1) else (10, 0)
    else if base == 16 && HexMark(s, i) then (16, 2) else (base, 0)
  }

  function SignMark(s: string, i: nat): (r: nat)
    requires i <= |s|
    ensures i + r <= |s|
  {
    if i < |s| && (s[i] == '-' || s[i] == '+') then 1 else 0
  }

  /** What is read from `s` in `base`: the value, and how many characters were used. */
  function Parsed(s: string, base: nat): (r: (nat, nat)) {
    var i := SpaceEnd(s, 0);
    var j := i + SignMark(s, i);
    var mark := BaseMark(s, j, base);
    var k := j + mark.1;
    var end := RunEnd(s, k, mark.0);
    var v := Value(s[k..end], mark.0) % UINTMAX;
    (if j > i && s[i] == '-' then (UINTMAX - v) % UINTMAX else v, end)
  }

  lemma ModStep(v: nat, base: nat, d: nat)
    ensures (v % UINTMAX * base + d) % UINTMAX == (v * base + d) % UINTMAX
  {
    var q, r := v / UINTMAX, v % UINTMAX;
    assert v == UINTMAX * q + r;
    assert v * base == UINTMAX * (q * base) + r * base;
    WholeTurns(r * base + d, q * base);
  }

  lemma WholeTurns(x: nat, n: nat)
    ensures (x + UINTMAX * n) % UINTMAX == x % UINTMAX
  {
    var q, r := x / UINTMAX, x % UINTMAX;
    assert x + UINTMAX * n == UINTMAX * (q + n) + r;
    RemainderIs(q + n, r);
  }

  lemma RemainderIs(q: nat, r: nat)
    requires r < UINTMAX
    ensures (UINTMAX * q + r) % UINTMAX == r
  {
  }

  lemma ValueDigit(s: string, k: nat, i: nat, base: nat)
    requires k <= i < |s| && IsDigit(s[i], base)
    ensures Value(s[k..i + 1], base) == Value(s[k..i], base) * base + DigitVal(s[i])
  {
    assert s[k..i + 1][..i - k] == s[k..i];
  }

  /** Skips white space and a sign. */
  method TakeSign(s: string) returns (minus: bool, p: nat)
    ensures var i := SpaceEnd(s, 0); p == i + SignMark(s, i) && (minus <==> p > i && s[i] == '-')
  {
    hide IsSpace;
    p := 0;
    while p < |s| && IsSpace(s[p])
      invariant p <= |s| && SpaceEnd(s, p) == SpaceEnd(s, 0)
    {
      p := p + 1;
    }
    minus := false;
    if p < |s| {
      var c := s[p];
      if c == '-' || c == '+' {
        minus := c == '-';
        p := p + 1;
      }
    }
  }

  /** Decides on the base and skips the characters that announce it. */
  method TakeBase(s: string, from: nat, base0: nat) returns (base: nat, p: nat)
    requires from <= |s|
    ensures (base, p - from) == BaseMark(s, from, base0)
  {
    base, p := base0, from;
    if base == 0 {
      if HexMark(s, p) {
        p := p + 2;
        base := 16;
      } else if p < |s| && s[p] == '0' {
        p := p + 1;
        base := 8;
      } else {
        base := 10;
      }
    } else if base == 16 {
      if HexMark(s, p) {
        p := p + 2;
      }
    }
  }

  /** Reads the digits from `k` on. */
  method TakeDigits(s: string, k: nat, base: nat) returns (v: nat, p: nat)
    requires k <= |s|
    ensures p == RunEnd(s, k, base) && v == Value(s[k..p], base) % UINTMAX
  {
    hide IsDigit, DigitVal, Value;
    v, p := 0, k;
    EmptyValue(s, k, base);
    while p < |s| && IsDigit(s[p], base)
      invariant k <= p <= |s| && RunEnd(s, p, base) == RunEnd(s, k, base)
      invariant v == Value(s[k..p], base) % UINTMAX
    {
      DigitNonNegative(s[p], base);
      ModStep(Value(s[k..p], base), base, DigitVal(s[p]));
      ValueDigit(s, k, p, base);
      v := (v * base + DigitVal(s[p])) % UINTMAX;
      p := p + 1;
    }
  }

  /** Reads a number. */
  method Strntoumax(s: string, base0: nat) returns (v: nat, end: nat)
    ensures (v, end) == Parsed(s, base0)
  {
    var minus, p := TakeSign(s);
    var base, k := TakeBase(s, p, base0);
    v, end := TakeDigits(s, k, base);
    if minus {
      v := (UINTMAX - v) % UINTMAX;
    }
  }

  lemma EmptyValue(s: string, k: nat, base: nat)
    requires k <= |s|
    ensures Value(s[k..k], base) == 0
  {
  }

  lemma DigitNonNegative(c: char, base: nat)
    requires IsDigit(c, base)
    ensures DigitVal(c) >= 0
  {
  }

  // ---- The round trip ----

  lemma {:induction false} SpaceRun(s: string, i: nat, n: nat)
    requires i <= n <= |s| && (forall k :: i <= k < n ==> IsSpace(s[k])) && (n < |s| ==> !IsSpace(s[n]))
    ensures SpaceEnd(s, i) == n
    decreases n - i
  {
    if i < n {
      SpaceRun(s, i + 1, n);
    }
  }

  lemma {:induction false} DigitRun(s: string, k: nat, base: nat)
    requires k <= |s| && forall i :: k <= i < |s| ==> IsDigit(s[i], base)
    ensures RunEnd(s, k, base) == |s|
    decreases |s| - k
  {
    if k < |s| {
      DigitRun(s, k + 1, base);
    }
  }

  lemma {:induction false} LeadingZeros(z: string, t: string, base: nat)
    requires forall i :: 0 <= i < |z| ==> z[i] == '0'
    ensures Value(z + t, base) == Value(t, base)
  {
    if t != [] {
      assert (z + t)[..|z| + |t| - 1] == z + t[..|t| - 1];
      LeadingZeros(z, t[..|t| - 1], base);
    } else if z != [] {
      assert z + t == z && z[..|z| - 1] + [] == z[..|z| - 1];
      LeadingZeros(z[..|z| - 1], [], base);
    }
  }

  /** Fill in front of the sign, and fill behind the prefix. */
  function Spaces(digits: string, p: Style): string {
    if p.zeros then "" else Copies(p.width - |digits| - |SignText(p)| - |PrefixText(p)|, ' ')
  }

  function Zeros(digits: string, p: Style): string {
    if p.zeros then Copies(p.width - |digits| - |SignText(p)| - |PrefixText(p)|, '0') else ""
  }

  lemma FieldParts(digits: string, p: Style)
    ensures Field(digits, p) == Spaces(digits, p) + SignText(p) + PrefixText(p) + (Zeros(digits, p) + digits)
  {
    hide SignText, PrefixText, Copies;
  }

  /** Reading digits with any number of zeros in front. */
  lemma BodyRead(s: string, k: nat, z: string, t: string, num: nat, base: nat)
    requires k <= |s| && s[k..] == z + t && IsNumeral(t, num, base) && base >= 1 &&
             forall i :: 0 <= i < |z| ==> z[i] == '0'
    ensures RunEnd(s, k, base) == |s| && Value(s[k..|s|], base) == num
  {
    assert forall i :: k <= i < |s| ==> s[i] == s[k..][i - k];
    forall i | k <= i < |s|
      ensures IsDigit(s[i], base)
    {
      assert s[i] == (z + t)[i - k];
    }
    DigitRun(s, k, base);
    LeadingZeros(z, t, base);
    assert s[k..|s|] == s[k..];
  }

  /** A character of a numeral, or a zero in front of it, is no white space, sign or hexadecimal mark. */
  lemma BodyChar(z: string, t: string, num: nat, base: nat, i: nat)
    requires IsNumeral(t, num, base) && base <= 16 && i < |z + t| && forall k :: 0 <= k < |z| ==> z[k] == '0'
    ensures var c := (z + t)[i]; !IsSpace(c) && c != '-' && c != '+' && c != 'x' && c != 'X'
  {
    if i >= |z| {
      assert (z + t)[i] == t[i - |z|];
    }
  }

  /** Skipping fill and sign leads to the prefix. */
  lemma MarksRead(t: string, p: Style, num: nat)
    requires BaseOk(p.base) && IsNumeral(t, num, p.base)
    ensures var s, i := Field(t, p), |Spaces(t, p)|;
            && SpaceEnd(s, 0) == i && SignMark(s, i) == |SignText(p)| && i + |SignText(p)| <= |s|
            && (p.negative <==> i < |s| && s[i] == '-')
            && s[i + |SignText(p)|..] == PrefixText(p) + (Zeros(t, p) + t)
  {
    FieldParts(t, p);
    FirstChar(t, p, num);
    var rest := PrefixText(p) + (Zeros(t, p) + t);
    assert forall k :: 0 <= k < |Spaces(t, p)| ==> Spaces(t, p)[k] == ' ';
    hide Field, Spaces, Zeros, PrefixText, IsNumeral;
    assert Field(t, p) == Spaces(t, p) + SignText(p) + rest;
    SkipTo(Field(t, p), Spaces(t, p), p.negative, rest);
  }

  lemma FirstChar(t: string, p: Style, num: nat)
    requires BaseOk(p.base) && IsNumeral(t, num, p.base)
    ensures var rest := PrefixText(p) + (Zeros(t, p) + t);
            rest != [] && !IsSpace(rest[0]) && rest[0] != '-' && rest[0] != '+'
  {
    BodyChar(Zeros(t, p), t, num, p.base, 0);
    var rest := PrefixText(p) + (Zeros(t, p) + t);
    assert rest[0] == if PrefixText(p) == "" then (Zeros(t, p) + t)[0] else '0';
  }

  lemma SkipTo(s: string, fill: string, negative: bool, rest: string)
    requires s == fill + (if negative then "-" else "") + rest
    requires forall k :: 0 <= k < |fill| ==> fill[k] == ' '
    requires rest != [] && !IsSpace(rest[0]) && rest[0] != '-' && rest[0] != '+'
    ensures var i, n := |fill|, if negative then 1 else 0;
            && SpaceEnd(s, 0) == i && SignMark(s, i) == n && i + n <= |s| && (negative <==> i < |s| && s[i] == '-')
            && s[i + n..] == rest
  {
    assert s[|fill|] == if negative then '-' else rest[0];
    assert forall k :: 0 <= k < |fill| ==> s[k] == fill[k];
    SpaceRun(s, 0, |fill|);
  }

  /** What the reader makes of the prefix: the printer's base, and the digits behind it. */
  lemma PrefixRead(s: string, j: nat, t: string, p: Style, num: nat, base: nat)
    requires BaseOk(p.base) && IsNumeral(t, num, p.base) && j <= |s| && s[j..] == PrefixText(p) + (Zeros(t, p) + t)
    requires base == p.base || (base == 0 && p.alt && p.base != 10)
    ensures BaseMark(s, j, base).0 == p.base
    ensures exists z :: s[j + BaseMark(s, j, base).1..] == z + t && forall i :: 0 <= i < |z| ==> z[i] == '0'
  {
    var z := Zeros(t, p);
    assert forall i :: 0 <= i < |z| ==> z[i] == '0';
    BodyChar(z, t, num, p.base, 0);
    if |z + t| > 1 {
      BodyChar(z, t, num, p.base, 1);
    }
    hide Zeros, IsNumeral;
    if p.alt && p.base == 16 {
      HexPrefix(s, j, if p.upper then 'X' else 'x', z + t, base);
    } else if p.alt && p.base == 8 {
      OctalPrefix(s, j, z + t, base);
      assert "0" + (z + t) == ("0" + z) + t;
    } else {
      assert "" + (z + t) == z + t;
      NoPrefix(s, j, z + t, base);
    }
  }

  lemma HexPrefix(s: string, j: nat, mark: char, body: string, base: nat)
    requires j <= |s| && s[j..] == ['0', mark] + body && mark in {'x', 'X'} && (base == 16 || base == 0)
    ensures BaseMark(s, j, base) == (16, 2) && s[j + 2..] == body
  {
    assert s[j] == s[j..][0] && s[j + 1] == s[j..][1];
    assert s[j + 2..] == s[j..][2..];
  }

  lemma OctalPrefix(s: string, j: nat, body: string, base: nat)
    requires j <= |s| && s[j..] == "0" + body && body != [] && body[0] != 'x' && body[0] != 'X' &&
             (base == 8 || base == 0)
    ensures BaseMark(s, j, base) == (8, if base == 0 then 1 else 0)
    ensures s[j + 1..] == body && s[j + 0..] == "0" + body
  {
    assert s[j] == s[j..][0] && s[j + 1] == s[j..][1];
    assert s[j + 1..] == s[j..][1..];
  }

  lemma NoPrefix(s: string, j: nat, body: string, base: nat)
    requires j <= |s| && s[j..] == body && base != 0 && (|body| > 1 ==> body[1] != 'x' && body[1] != 'X')
    ensures BaseMark(s, j, base) == (base, 0) && s[j + 0..] == body
  {
    assert |body| > 1 ==> s[j + 1] == s[j..][1];
  }

  /** Reading back what was printed, in the same base or, with the alternate prefix, in base 0,
      yields the number and uses up the whole text. */
  lemma RoundTrip(num: nat, t: string, p: Style, base: nat)
    requires num < WORD && BaseOk(p.base) && IsNumeral(t, num, p.base)
    requires base == p.base || (base == 0 && p.alt && p.base != 10)
    ensures Parsed(Field(t, p), base) == (if p.negative then (UINTMAX - num) % UINTMAX else num, |Field(t, p)|)
  {
    hide Field, Spaces, Zeros, PrefixText, IsNumeral, Value, SpaceEnd, RunEnd, SignMark, BaseMark;
    MarksRead(t, p, num);
    var s := Field(t, p);
    var i := |Spaces(t, p)|;
    var j := i + |SignText(p)|;
    PrefixRead(s, j, t, p, num, base);
    var k := j + BaseMark(s, j, base).1;
    var z :| s[k..] == z + t && forall i :: 0 <= i < |z| ==> z[i] == '0';
    BodyRead(s, k, z, t, num, p.base);
  }

  lemma FieldWidth(t: string, p: Style)
    ensures |Field(t, p)| >= p.width
  {
  }

  lemma NegativeWord(num: int)
    requires -0x8000_0000 < num < 0x8000_0000
    ensures num % UINTMAX == if num < 0 then (UINTMAX - (-num)) % UINTMAX else num
  {
  }

  /** Prints a signed number other than the smallest one; the text that is read back gives the
      number, as the reader represents negative numbers. */
  method PrintSigned(num: int, width: nat, zeros: bool) returns (out: string)
    requires -0x8000_0000 < num < 0x8000_0000
    ensures Parsed(out, 10) == (num % UINTMAX, |out|) && |out| >= width
  {
    var n, negative := num, false;
    if n < 0 {
      n := -n;
      negative := true;
    }
    var bf := new char[BUFFER](_ => ' ');
    var len := Ui2a(n, 10, false, bf);
    var p := Style(width, zeros, negative, false, 10, false);
    out := Putchw(bf, len, p);
    hide Parsed, Field, IsNumeral;
    RoundTrip(n, bf[..len], p, 10);
    FieldWidth(bf[..len], p);
    NegativeWord(num);
  }

  /** Prints an unsigned number. */
  method PrintUnsigned(num: nat, width: nat, zeros: bool, alt: bool, base: nat, upper: bool) returns (out: string)
    requires num < WORD && BaseOk(base)
    ensures Parsed(out, base) == (num, |out|) && |out| >= width
    ensures alt && base != 10 ==> Parsed(out, 0) == (num, |out|)
  {
    var bf := new char[BUFFER](_ => ' ');
    var len := Ui2a(num, base, upper, bf);
    var p := Style(width, zeros, false, alt, base, upper);
    out := Putchw(bf, len, p);
    hide Parsed, Field, IsNumeral;
    RoundTrip(num, bf[..len], p, base);
    FieldWidth(bf[..len], p);
    if alt && base != 10 {
      RoundTrip(num, bf[..len], p, 0);
    }
  }
}
