/** Printing and reading numbers (vsprintf.c:12-84). */
module Number {
  import opened Memory

  /** The type bits, one by one (vsprintf.c:21-27). */
  datatype Flags = Flags(zeropad: bool, sign: bool, plus: bool, space: bool, left: bool, special: bool, small: bool)

  const NO_FLAGS: Flags := Flags(false, false, false, false, false, false, false)

  // ---- digits

  /** Entry d of the table of digits. */
  function DigitChar(d: nat, small: bool): (c: char)
    requires d < 36
    ensures DigitValue(c) == d && InCase(c, small)
  {
    if d < 10 then '0' + (d as char) else (if small then 'a' else 'A') + ((d - 10) as char)
  }

  /** No capital letter in small print and no small one in capitals. */
  predicate InCase(c: char, small: bool)
  {
    if small then !('A' <= c <= 'Z') else !('a' <= c <= 'z')
  }

  /** The number a character stands for, in either case; 36 for a character that is no digit. */
  function DigitValue(c: char): (d: nat)
    ensures d <= 36
  {
    if '0' <= c <= '9' then (c - '0') as nat
    else if 'a' <= c <= 'z' then (c - 'a') as nat + 10
    else if 'A' <= c <= 'Z' then (c - 'A') as nat + 10
    else 36
  }

  /** The digits of n, most significant first; one zero for zero. */
  function Digits(n: nat, base: nat, small: bool): (s: string)
    requires 2 <= base <= 36
    decreases n
  {
    if n < base then [DigitChar(n, small)] else
      AtLeastHalved(n, base, n);
      Digits(n / base, base, small) + [DigitChar(n % base, small)]
  }

  predicate AllDigits(s: string, base: nat)
  {
    forall i | 0 <= i < |s| :: DigitValue(s[i]) < base
  }

  /** Reading digits on from a value already read. */
  function Fold(s: string, base: nat, acc: nat): nat
  {
    if |s| == 0 then acc else Fold(s[1..], base, acc * base + DigitValue(s[0]))
  }

  lemma {:induction false} FoldJoin(s: string, t: string, base: nat, acc: nat)
    ensures Fold(s + t, base, acc) == Fold(t, base, Fold(s, base, acc))
    decreases |s|
  {
    if |s| == 0 {
      assert s + t == t;
    } else {
      assert (s + t)[1..] == s[1..] + t;
      FoldJoin(s[1..], t, base, acc * base + DigitValue(s[0]));
    }
  }

  lemma FoldEmpty(base: nat, acc: nat)
    ensures Fold([], base, acc) == acc
  {
  }

  lemma FoldOne(c: char, base: nat, acc: nat)
    ensures Fold([c], base, acc) == acc * base + DigitValue(c)
  {
    assert [c][1..] == [];
  }

  lemma DivMod(n: nat, base: nat)
    requires base > 0
    ensures n / base * base + n % base == n && 0 <= n % base < base
  {
  }

  /** Dividing by a base takes off at least one bit. */
  lemma AtLeastHalved(n: nat, base: nat, m: nat)
    requires base >= 2 && n < 2 * m
    ensures n / base < m
  {
    DivMod(n, base);
    MulMono(n / base, 2, base);
  }

  lemma MulMono(q: nat, a: nat, b: nat)
    requires a <= b
    ensures q * a <= q * b
  {
  }

  /** Reading the digits of n gives n back. */
  lemma {:induction false} FoldDigits(n: nat, base: nat, small: bool)
    requires 2 <= base <= 36
    ensures Fold(Digits(n, base, small), base, 0) == n
    decreases n
  {
    hide DigitChar, DigitValue, Fold;
    DivMod(n, base);
    if n < base {
      SmallNumber(n, base);
      FoldOne(DigitChar(n, small), base, 0);
    } else {
      AtLeastHalved(n, base, n);
      FoldDigits(n / base, base, small);
      FoldJoin(Digits(n / base, base, small), [DigitChar(n % base, small)], base, 0);
      FoldOne(DigitChar(n % base, small), base, n / base);
    }
  }

  lemma SmallNumber(n: nat, base: nat)
    requires n < base
    ensures n % base == n && 0 * base == 0
  {
  }

  lemma {:induction false} DigitsAreDigits(n: nat, base: nat, small: bool)
    requires 2 <= base <= 36
    ensures AllDigits(Digits(n, base, small), base) && |Digits(n, base, small)| >= 1
    decreases n
  {
    hide DigitChar, DigitValue;
    if n < base {
    } else {
      DivMod(n, base);
      DigitsAreDigits(n / base, base, small);
      }
  }

  /** A number below 2^bits has at most that many digits in any base. */
  lemma {:induction false} DigitCount(n: nat, base: nat, small: bool, bits: nat)
    requires 2 <= base <= 36 && n < Pow2(bits)
    ensures |Digits(n, base, small)| <= if bits == 0 then 1 else bits
    decreases bits
  {
    if n >= base && bits > 0 {
      AtLeastHalved(n, base, Pow2(bits - 1));
      DigitCount(n / base, base, small, bits - 1);
    }
  }

  /** The numeral of a number as people write it: digits below the base, in one case, no zero in front. */
  predicate IsNumeral(s: string, base: nat, small: bool)
  {
    && |s| > 0 && AllDigits(s, base) && InCaseAll(s, small)
    && (|s| > 1 ==> s[0] != '0')
  }

  predicate InCaseAll(s: string, small: bool)
  {
    forall i | 0 <= i < |s| :: InCase(s[i], small)
  }

  lemma {:induction false} DigitsAreNumeral(n: nat, base: nat, small: bool)
    requires 2 <= base <= 36
    ensures IsNumeral(Digits(n, base, small), base, small)
    ensures n > 0 ==> Digits(n, base, small)[0] != '0'
    decreases n
  {
    DivMod(n, base);
    if n >= base {
      SmallQuotient(n, base);
      DigitsAreNumeral(n / base, base, small);
    }
  }

  lemma {:induction false} FoldGrows(s: string, base: nat, acc: nat)
    requires base >= 1
    ensures Fold(s, base, acc) >= acc
    decreases |s|
  {
    if |s| > 0 {
      FoldGrows(s[1..], base, acc * base + DigitValue(s[0]));
      MulMono(acc, 1, base);
    }
  }

  /** There is only one numeral for a number. */
  lemma {:induction false} NumeralUnique(s: string, base: nat, small: bool)
    requires 2 <= base <= 36 && IsNumeral(s, base, small)
    ensures s == Digits(Fold(s, base, 0), base, small)
    decreases |s|
  {
    hide InCase, DigitChar, DigitValue, Fold;
    var k := |s| - 1;
    var d := DigitValue(s[k]);
    OneDigitChar(s[k], small);
    assert s == s[..k] + [s[k]];
    FoldOne(s[k], base, Fold(s[..k], base, 0));
    FoldJoin(s[..k], [s[k]], base, 0);
    if k == 0 {
      FoldEmpty(base, 0);
      assert s[..0] == "";
    } else {
      NumeralPositive(s[..k], base);
      NumeralUnique(s[..k], base, small);
      Quotient(Fold(s[..k], base, 0), base, d);
    }
  }

  lemma OneDigitChar(c: char, small: bool)
    requires DigitValue(c) < 36 && InCase(c, small)
    ensures DigitChar(DigitValue(c), small) == c
  {
  }

  lemma NumeralPositive(s: string, base: nat)
    requires 2 <= base && |s| > 0 && s[0] != '0'
    ensures Fold(s, base, 0) > 0
  {
    FoldGrows(s[1..], base, DigitValue(s[0]));
  }

  lemma Quotient(q: nat, base: nat, d: nat)
    requires d < base && q > 0
    ensures q * base + d >= base && (q * base + d) / base == q && (q * base + d) % base == d
  {
    MulMono(base, 1, q);
    DivMod(q * base + d, base);
    SameQuotient(q, (q * base + d) / base, base, d, (q * base + d) % base);
  }

  lemma SameQuotient(q: nat, r: nat, base: nat, d: nat, e: nat)
    requires d < base && e < base && q * base + d == r * base + e
    ensures q == r && d == e
  {
    if q < r {
      MulMono(base, q + 1, r);
    } else if r < q {
      MulMono(base, r + 1, q);
    }
  }

  // ---- what number prints

  function Rep(c: char, n: int): (s: string)
    ensures |s| == if n < 0 then 0 else n
    ensures forall i | 0 <= i < |s| :: s[i] == c
    decreases n
  {
    if n <= 0 then [] else [c] + Rep(c, n - 1)
  }

  /** The number that is printed without its sign. Negating the least int leaves 2^31 for the unsigned division. */
  function Magnitude(num: int, flags: Flags): nat
    requires -SIGN_BIT <= num < SIGN_BIT
  {
    if num >= 0 then num else if flags.sign then -num else num + WORD_LIMIT
  }

  const SIGN_BIT: int := 0x8000_0000

  function SignText(num: int, flags: Flags): string
  {
    if flags.sign && num < 0 then "-" else if flags.plus then "+" else if flags.space then " " else ""
  }

  function Prefix(base: nat, flags: Flags): string
  {
    if flags.special && base == 8 then "0"
    else if flags.special && base == 16 then if flags.small then "0x" else "0X"
    else ""
  }

  /** At least precision digits. */
  function Body(num: int, base: nat, precision: int, flags: Flags): string
    requires -SIGN_BIT <= num < SIGN_BIT && 2 <= base <= 36
  {
    var d := Digits(Magnitude(num, flags), base, flags.small);
    Rep('0', precision - |d|) + d
  }

  /** Padded to at least size characters: behind, or with zeros after sign and prefix, or with spaces in front. */
  function Printed(num: int, base: nat, size: int, precision: int, flags: Flags): string
    requires -SIGN_BIT <= num < SIGN_BIT && 2 <= base <= 36
  {
    var head := SignText(num, flags) + Prefix(base, flags);
    var body := Body(num, base, precision, flags);
    var pad := size - |head| - |body|;
    if flags.left then head + body + Rep(' ', pad)
    else if flags.zeropad then head + Rep('0', pad) + body
    else Rep(' ', pad) + head + body
  }

  function Max(a: int, b: int): int
  {
    if a < b then b else a
  }

  /** The length is the field width or what sign, prefix and digits need, whichever is more. */
  lemma PrintedLength(num: int, base: nat, size: int, precision: int, flags: Flags)
    requires -SIGN_BIT <= num < SIGN_BIT && 2 <= base <= 36
    ensures |Printed(num, base, size, precision, flags)|
            == Max(size, |SignText(num, flags)| + |Prefix(base, flags)|
                         + Max(precision, |Digits(Magnitude(num, flags), base, flags.small)|))
  {
  }

  // ---- what a printed number looks like

  /** The parts of a printed number, from left to right. */
  datatype Parts = Parts(front: string, sign: string, prefix: string, zeros: string, digits: string, behind: string)
  {
    function Text(): string
    {
      front + sign + prefix + zeros + digits + behind
    }
  }

  predicate Only(s: string, c: char)
  {
    forall i | 0 <= i < |s| :: s[i] == c
  }

  ghost predicate SignMeans(sign: string, minus: bool, flags: Flags)
  {
    && sign in ["", "-", "+", " "]
    && (sign == "-" <==> minus)
    && (sign == "+" <==> flags.plus && !minus)
    && (sign == " " <==> flags.space && !flags.plus && !minus)
  }

  ghost predicate PrefixMeans(prefix: string, base: nat, flags: Flags)
  {
    && prefix in ["", "0", "0x", "0X"]
    && (prefix == "0" <==> flags.special && base == 8)
    && (prefix == "0x" <==> flags.special && base == 16 && flags.small)
    && (prefix == "0X" <==> flags.special && base == 16 && !flags.small)
  }

  /** Zeros bring the digits to the precision; the rest of the width is spaces behind with the left flag, zeros with
      the zero flag, and spaces in front otherwise. */
  ghost predicate PaddingMeans(p: Parts, size: int, precision: int, flags: Flags)
  {
    && Only(p.front, ' ') && Only(p.zeros, '0') && Only(p.behind, ' ')
    && |p.zeros| + |p.digits| >= precision && |p.Text()| >= size
    && (p.front != "" ==> !flags.left && !flags.zeropad && |p.Text()| == size)
    && (p.behind != "" ==> flags.left && |p.Text()| == size)
    && (p.zeros != "" ==> |p.zeros| + |p.digits| == precision
                          || (flags.zeropad && !flags.left && |p.Text()| == size))
  }

  /** The parts are those of num in that base: what the flags ask for and nothing else. The least int has no positive
      counterpart; its magnitude is 2^31. */
  ghost predicate Describes(p: Parts, num: int, base: nat, size: int, precision: int, flags: Flags)
  {
    && SignMeans(p.sign, flags.sign && num < 0, flags)
    && PrefixMeans(p.prefix, base, flags)
    && PaddingMeans(p, size, precision, flags)
    && IsNumeral(p.digits, base, flags.small)
    && Fold(p.digits, base, 0) == if num >= 0 then num else if flags.sign then -num else num + 0x1_0000_0000
  }

  /** What is printed has such parts. */
  lemma PrintedParts(num: int, base: nat, size: int, precision: int, flags: Flags) returns (p: Parts)
    requires -SIGN_BIT <= num < SIGN_BIT && 2 <= base <= 36
    ensures Describes(p, num, base, size, precision, flags)
    ensures p.Text() == Printed(num, base, size, precision, flags)
  {
    hide Digits, IsNumeral, Fold, SignText, Prefix, Magnitude, Only, SignMeans, PrefixMeans, PaddingMeans, Rep;
    var sign, prefix := SignText(num, flags), Prefix(base, flags);
    var digits := Digits(Magnitude(num, flags), base, flags.small);
    DigitsAreNumeral(Magnitude(num, flags), base, flags.small);
    FoldDigits(Magnitude(num, flags), base, flags.small);
    HeadMeans(num, base, flags);
    p := Padded(sign, prefix, digits, size, precision, flags);
  }

  lemma HeadMeans(num: int, base: nat, flags: Flags)
    requires -SIGN_BIT <= num < SIGN_BIT
    ensures SignMeans(SignText(num, flags), flags.sign && num < 0, flags)
    ensures PrefixMeans(Prefix(base, flags), base, flags)
    ensures Magnitude(num, flags) == if num >= 0 then num else if flags.sign then -num else num + 0x1_0000_0000
  {
  }

  lemma Padded(sign: string, prefix: string, digits: string, size: int, precision: int, flags: Flags)
    returns (p: Parts)
    ensures p.sign == sign && p.prefix == prefix && p.digits == digits && PaddingMeans(p, size, precision, flags)
    ensures var body := Rep('0', precision - |digits|) + digits;
            var pad := size - |sign + prefix| - |body|;
            p.Text() == if flags.left then sign + prefix + body + Rep(' ', pad)
                        else if flags.zeropad then sign + prefix + Rep('0', pad) + body
                        else Rep(' ', pad) + (sign + prefix) + body
  {
    var zeros := Rep('0', precision - |digits|);
    var pad := size - |sign + prefix| - |zeros + digits|;
    if flags.left {
      p := Parts("", sign, prefix, zeros, digits, Rep(' ', pad));
    } else if flags.zeropad {
      p := Parts("", sign, prefix, Rep('0', pad) + zeros, digits, "");
      assert sign + prefix + (Rep('0', pad) + zeros) + digits == sign + prefix + Rep('0', pad) + (zeros + digits);
    } else {
      p := Parts(Rep(' ', pad), sign, prefix, zeros, digits, "");
    }
    PartsText(p);
  }

  lemma PartsText(p: Parts)
    ensures p.Text() == p.front + (p.sign + p.prefix) + (p.zeros + p.digits) + p.behind
    ensures p.front == "" ==> p.Text() == p.sign + p.prefix + (p.zeros + p.digits) + p.behind
    ensures p.behind == "" ==> p.Text() == p.front + (p.sign + p.prefix) + (p.zeros + p.digits)
    ensures p.front == "" == p.behind ==> p.Text() == p.sign + p.prefix + p.zeros + p.digits
    ensures |p.Text()| == |p.front| + |p.sign| + |p.prefix| + |p.zeros| + |p.digits| + |p.behind|
  {
  }

  /** And no other text has: such parts always spell what is printed. */
  lemma PartsDetermine(p: Parts, num: int, base: nat, size: int, precision: int, flags: Flags)
    requires -SIGN_BIT <= num < SIGN_BIT && 2 <= base <= 36
    requires Describes(p, num, base, size, precision, flags)
    ensures p.Text() == Printed(num, base, size, precision, flags)
  {
    hide Digits, IsNumeral, Fold, Printed, Only, SignMeans, PrefixMeans, PaddingMeans;
    var q := PrintedParts(num, base, size, precision, flags);
    NumeralUnique(p.digits, base, flags.small);
    NumeralUnique(q.digits, base, flags.small);
    OneHead(p, q, base, flags.sign && num < 0, flags);
    OnePadding(p, q, size, precision, flags);
  }

  /** The letters are small or capital as the flag says, those of the prefix too. */
  lemma PrintedInCase(num: int, base: nat, size: int, precision: int, flags: Flags)
    requires -SIGN_BIT <= num < SIGN_BIT && 2 <= base <= 36
    ensures var t := Printed(num, base, size, precision, flags);
            forall i | 0 <= i < |t| :: InCase(t[i], flags.small)
  {
    hide Digits, Fold, Printed;
    hide InCase, IsNumeral, Only, PaddingMeans, SignMeans, PrefixMeans;
    var p := PrintedParts(num, base, size, precision, flags);
    PartsText(p);
    AllInCase(p, num, base, size, precision, flags);
    var tail := p.zeros + p.digits + p.behind;
    assert p.Text() == p.front + p.sign + p.prefix + tail;
  }

  lemma AllInCase(p: Parts, num: int, base: nat, size: int, precision: int, flags: Flags)
    requires Describes(p, num, base, size, precision, flags)
    ensures InCaseAll(p.front, flags.small) && InCaseAll(p.sign, flags.small) && InCaseAll(p.prefix, flags.small)
    ensures InCaseAll(p.zeros, flags.small) && InCaseAll(p.digits, flags.small) && InCaseAll(p.behind, flags.small)
  {
    hide Fold;
  }

  lemma OneHead(p: Parts, q: Parts, base: nat, minus: bool, flags: Flags)
    requires SignMeans(p.sign, minus, flags) && SignMeans(q.sign, minus, flags)
    requires PrefixMeans(p.prefix, base, flags) && PrefixMeans(q.prefix, base, flags)
    ensures p.sign == q.sign && p.prefix == q.prefix
  {
  }

  lemma OnePadding(p: Parts, q: Parts, size: int, precision: int, flags: Flags)
    requires PaddingMeans(p, size, precision, flags) && PaddingMeans(q, size, precision, flags)
    requires p.sign == q.sign && p.prefix == q.prefix && p.digits == q.digits
    ensures p == q
  {
    PartsText(p);
    PartsText(q);
    OneFilling(p.front, q.front, ' ');
    OneFilling(p.zeros, q.zeros, '0');
    OneFilling(p.behind, q.behind, ' ');
  }

  lemma OneFilling(a: string, b: string, c: char)
    requires Only(a, c) && Only(b, c)
    ensures a == b <==> |a| == |b|
  {
  }

  // ---- an independent reader

  /** The longest run of digits of the base at the front. */
  function DigitRun(s: string, base: nat): (k: nat)
    ensures k <= |s| && AllDigits(s[..k], base)
    ensures k < |s| ==> DigitValue(s[k]) >= base
  {
    if |s| == 0 || DigitValue(s[0]) >= base then 0 else
      var k := DigitRun(s[1..], base);
      assert s[..k + 1] == [s[0]] + s[1..][..k];
      k + 1
  }

  function SkipSpaces(s: string): string
  {
    if |s| > 0 && s[0] == ' ' then SkipSpaces(s[1..]) else s
  }

  /** Reads the prefix the flags announce, then digits; the rest must be spaces. */
  function ReadMagnitude(t: string, base: nat, flags: Flags): (r: OrPanic<nat>)
  {
    var u := if |Prefix(base, flags)| <= |t| then t[|Prefix(base, flags)|..] else t;
    var k := DigitRun(u, base);
    if k == 0 || SkipSpaces(u[k..]) != "" then Panic else Returned(Fold(u[..k], base, 0))
  }

  function Negated(negative: bool, n: int): int
  {
    if negative then -n else n
  }

  /** Reads spaces, a sign, then the magnitude. */
  function Read(text: string, base: nat, flags: Flags): (r: OrPanic<int>)
  {
    var s := SkipSpaces(text);
    var t := if |s| > 0 && (s[0] == '-' || s[0] == '+') then s[1..] else s;
    match ReadMagnitude(t, base, flags)
    case Panic => Panic
    case Returned(n) => Returned(Negated(|s| > 0 && s[0] == '-', n))
  }

  lemma {:induction false} SkipRep(n: int, s: string)
    requires |s| == 0 || s[0] != ' '
    ensures SkipSpaces(Rep(' ', n) + s) == s
    decreases n
  {
    if n <= 0 {
      assert Rep(' ', n) + s == s;
    } else {
      assert (Rep(' ', n) + s)[1..] == Rep(' ', n - 1) + s;
      SkipRep(n - 1, s);
    }
  }

  lemma {:induction false} FoldZeros(n: int, base: nat)
    ensures Fold(Rep('0', n), base, 0) == 0
    decreases n
  {
    if n > 0 {
      assert Rep('0', n)[1..] == Rep('0', n - 1);
      FoldZeros(n - 1, base);
    }
  }

  lemma {:induction false} RunOf(d: string, rest: string, base: nat)
    requires AllDigits(d, base) && (|rest| == 0 || DigitValue(rest[0]) >= base)
    ensures DigitRun(d + rest, base) == |d|
    decreases |d|
  {
    if |d| == 0 {
      assert d + rest == rest;
    } else {
      assert (d + rest)[1..] == d[1..] + rest;
      RunOf(d[1..], rest, base);
    }
  }

  // ---- reading back what was printed

  /** The digits, zeros in front, and whatever spaces follow read back as the magnitude. */
  lemma ReadBody(zeros: int, num: int, base: nat, flags: Flags, rest: string)
    requires -SIGN_BIT <= num < SIGN_BIT && 2 <= base <= 36
    requires |rest| == 0 || DigitValue(rest[0]) >= base
    ensures var d := Rep('0', zeros) + Digits(Magnitude(num, flags), base, flags.small);
            && DigitRun(d + rest, base) == |d| > 0 && (d + rest)[..|d|] == d && (d + rest)[|d|..] == rest
            && Fold(d, base, 0) == Magnitude(num, flags)
  {
    var n := Magnitude(num, flags);
    var z, digits := Rep('0', zeros), Digits(n, base, flags.small);
    DigitsAreDigits(n, base, flags.small);
    FoldDigits(n, base, flags.small);
    FoldZeros(zeros, base);
    FoldJoin(z, digits, base, 0);
    RunOf(z + digits, rest, base);
  }

  lemma {:induction false} RepJoin(a: nat, b: nat, s: string)
    ensures Rep('0', a) + (Rep('0', b) + s) == Rep('0', a + b) + s
    decreases a
  {
    if a == 0 {
      assert Rep('0', 0) + (Rep('0', b) + s) == Rep('0', b) + s;
    } else {
      RepJoin(a - 1, b, s);
      assert Rep('0', a) + (Rep('0', b) + s) == ['0'] + (Rep('0', a - 1) + (Rep('0', b) + s));
      assert Rep('0', a + b) + s == ['0'] + (Rep('0', a + b - 1) + s);
    }
  }

  predicate NoSignOrSpace(c: char)
  {
    c != ' ' && c != '-' && c != '+'
  }

  lemma DigitIsPlain(c: char)
    requires DigitValue(c) < 36
    ensures NoSignOrSpace(c)
  {
  }

  lemma ReadSigned(spaces: int, num: int, base: nat, flags: Flags, t: string)
    requires |t| > 0 && NoSignOrSpace(t[0]) && ReadMagnitude(t, base, flags).Returned?
    ensures var n := ReadMagnitude(t, base, flags).value;
            Read(Rep(' ', spaces) + (SignText(num, flags) + t), base, flags)
            == Returned(Negated(flags.sign && num < 0, n))
  {
    hide ReadMagnitude;
    var sign := SignText(num, flags);
    SpacesThenSkip(spaces, sign + t);
    if sign == "" {
      assert sign + t == t;
    } else {
      assert (sign + t)[1..] == t && (sign + t)[0] == sign[0];
    }
  }

  /** Prefix and digits with any zeros between them, spaces behind. */
  lemma ReadPieces(num: int, base: nat, flags: Flags, zeros: int, behind: int)
    requires -SIGN_BIT <= num < SIGN_BIT && 2 <= base <= 36
    ensures var t := Prefix(base, flags)
                     + (Rep('0', zeros) + Digits(Magnitude(num, flags), base, flags.small) + Rep(' ', behind));
            && |t| > 0 && NoSignOrSpace(t[0])
            && ReadMagnitude(t, base, flags) == Returned(Magnitude(num, flags))
  {
    hide Magnitude, Fold, Digits;
    var d := Rep('0', zeros) + Digits(Magnitude(num, flags), base, flags.small);
    var u := d + Rep(' ', behind);
    var prefix := Prefix(base, flags);
    ReadBody(zeros, num, base, flags, Rep(' ', behind));
    SkipRep(behind, "");
    assert Rep(' ', behind) + "" == Rep(' ', behind);
    assert (prefix + u)[|prefix|..] == u;
    assert u[0] == u[..|d|][0];
    DigitIsPlain(u[0]);
  }

  lemma {:induction false} SpacesThenSkip(n: int, s: string)
    ensures SkipSpaces(Rep(' ', n) + s) == SkipSpaces(s)
    decreases n
  {
    if n <= 0 {
      assert Rep(' ', n) + s == s;
    } else {
      assert (Rep(' ', n) + s)[1..] == Rep(' ', n - 1) + s;
      SpacesThenSkip(n - 1, s);
    }
  }

  /** Every printed number is spaces, sign, prefix, zeros, digits and spaces. */
  lemma PrintedShape(num: int, base: nat, size: int, precision: int, flags: Flags)
    returns (spaces: int, zeros: int, behind: int)
    requires -SIGN_BIT <= num < SIGN_BIT && 2 <= base <= 36
    ensures Printed(num, base, size, precision, flags)
            == Rep(' ', spaces) + (SignText(num, flags) + (Prefix(base, flags)
               + (Rep('0', zeros) + Digits(Magnitude(num, flags), base, flags.small) + Rep(' ', behind))))
  {
    hide SignText, Prefix, Magnitude, Digits;
    var sign, prefix := SignText(num, flags), Prefix(base, flags);
    var digits := Digits(Magnitude(num, flags), base, flags.small);
    zeros := if precision < |digits| then 0 else precision - |digits|;
    var body := Body(num, base, precision, flags);
    var pad := size - |sign + prefix| - |body|;
    spaces, behind := 0, 0;
    if flags.left {
      behind := pad;
      Regroup("", sign, prefix, body, Rep(' ', pad));
    } else if flags.zeropad {
      ZerosInFront(pad, zeros, sign + prefix, digits);
      zeros := zeros + if pad < 0 then 0 else pad;
      Regroup("", sign, prefix, Rep('0', zeros) + digits, "");
    } else {
      spaces := pad;
      Regroup(Rep(' ', pad), sign, prefix, body, "");
    }
  }

  lemma ZerosInFront(pad: int, zeros: nat, front: string, digits: string)
    ensures front + Rep('0', pad) + (Rep('0', zeros) + digits)
            == front + (Rep('0', zeros + if pad < 0 then 0 else pad) + digits)
  {
    var more := if pad < 0 then 0 else pad;
    RepJoin(more, zeros, digits);
    assert Rep('0', pad) == Rep('0', more);
  }

  lemma Regroup(a: string, sign: string, prefix: string, body: string, b: string)
    ensures a + (sign + (prefix + (body + b))) == a + (sign + prefix) + body + b
    ensures "" + (sign + (prefix + (body + b))) == sign + prefix + body + b
    ensures body + "" == body
  {
  }

  /** Whatever the width, precision and flags, what is printed reads back as the number: with its sign if one is
      asked for, and as the unsigned word otherwise. */
  lemma PrintedReadsBack(num: int, base: nat, size: int, precision: int, flags: Flags)
    requires -SIGN_BIT <= num < SIGN_BIT && 2 <= base <= 36
    ensures Read(Printed(num, base, size, precision, flags), base, flags)
            == Returned(if flags.sign then num else if num < 0 then num + WORD_LIMIT else num)
  {
    hide Printed, Read, ReadMagnitude, Prefix, SignText, Digits;
    var spaces, zeros, behind := PrintedShape(num, base, size, precision, flags);
    ReadPieces(num, base, flags, zeros, behind);
    ReadSigned(spaces, num, base, flags,
               Prefix(base, flags)
               + (Rep('0', zeros) + Digits(Magnitude(num, flags), base, flags.small) + Rep(' ', behind)));
  }

  // ---- the code

  /** skip_atoi. The source's int overflows for longer runs of digits. */
  method SkipAtoi(s: string, pos: nat) returns (i: nat, end: nat)
    requires pos <= |s| && Fold(s[pos..pos + DigitRun(s[pos..], 10)], 10, 0) < SIGN_LIMIT
    ensures end == pos + DigitRun(s[pos..], 10)
    ensures i == Fold(s[pos..end], 10, 0)
  {
    hide Fold;
    i, end := 0, pos;
    FoldEmpty(10, 0);
    assert s[pos..pos] == [];
    while end < |s| && '0' <= s[end] <= '9'
      invariant pos <= end <= |s|
      invariant i == Fold(s[pos..end], 10, 0) && AllDigits(s[pos..end], 10)
    {
      assert s[pos..end + 1] == s[pos..end] + [s[end]];
      FoldJoin(s[pos..end], [s[end]], 10, 0);
      FoldOne(s[end], 10, i);
      i := i * 10 + (s[end] as int - '0' as int);
      end := end + 1;
    }
    assert s[pos..] == s[pos..end] + s[end..];
    RunOf(s[pos..end], s[end..], 10);
  }

  /** Reading the plain decimal print of a number gives the number, up to the first character that is no digit. */
  lemma AtoiInvertsPrint(n: nat, rest: string)
    requires n < SIGN_LIMIT && (|rest| == 0 || DigitValue(rest[0]) >= 10)
    ensures var text := Printed(n, 10, -1, -1, NO_FLAGS);
            && DigitRun(text + rest, 10) == |text|
            && Fold((text + rest)[..|text|], 10, 0) == n
  {
    var d := Digits(n, 10, false);
    DigitsAreDigits(n, 10, false);
    FoldDigits(n, 10, false);
    RunOf(d, rest, 10);
    assert Printed(n, 10, -1, -1, NO_FLAGS) == d;
    assert (d + rest)[..|d|] == d;
  }

  /** The first k characters of the scratch array, last one first. */
  ghost function Reversed(tmp: seq<char>, k: nat): (s: string)
    requires k <= |tmp|
    ensures |s| == k
  {
    if k == 0 then "" else [tmp[k - 1]] + Reversed(tmp, k - 1)
  }

  lemma {:induction false} ReversedSame(a: seq<char>, b: seq<char>, k: nat)
    requires k <= |a| && k <= |b| && (forall i | 0 <= i < k :: a[i] == b[i])
    ensures Reversed(a, k) == Reversed(b, k)
  {
    if k > 0 {
      ReversedSame(a, b, k - 1);
    }
  }

  /** Lines 55-59: the digits, least significant first, into an array of 36. No more than 32 are written. */
  method FillDigits(n: nat, base: nat, small: bool) returns (tmp: array<char>, i: nat)
    requires n < WORD_LIMIT && 2 <= base <= 36
    ensures fresh(tmp) && tmp.Length == 36 && 1 <= i <= 32
    ensures Reversed(tmp[..], i) == Digits(n, base, small)
  {
    hide Digits, DigitChar;
    tmp := new char[36];
    i := 0;
    Pow32();
    if n == 0 {
      ZeroDigit(base, small);
      tmp[0] := '0';
      i := 1;
      assert Reversed(tmp[..], 1) == [tmp[0]] + Reversed(tmp[..], 0);
    } else {
      var num: nat := n;
      assert Reversed(tmp[..], 0) == "";
      hide Reversed;
      while num != 0
        invariant i <= 32 && num < Pow2(32 - i)
        invariant num == 0 ==> i > 0
        invariant StillToCome(num, base, small) + Reversed(tmp[..], i) == Digits(n, base, small)
        decreases num
      {
        hide StillToCome;
        assert i < 32;
        ghost var before := tmp[..];
        AtLeastHalved(num, base, Pow2(32 - i - 1));
        DivMod(num, base);
        SmallQuotient(num, base);
        tmp[i] := DigitChar(num % base, small);
        NextDigit(before, tmp[..], i, num, base, small);
        num := num / base;
        i := i + 1;
      }
    }
  }

  lemma ZeroDigit(base: nat, small: bool)
    requires 2 <= base <= 36
    ensures Digits(0, base, small) == "0"
  {
  }

  /** The digits not yet written. */
  ghost function StillToCome(num: nat, base: nat, small: bool): string
    requires 2 <= base <= 36
  {
    if num == 0 then "" else Digits(num, base, small)
  }

  /** Writing the last digit next keeps the whole number. */
  lemma NextDigit(before: seq<char>, after: seq<char>, i: nat, num: nat, base: nat, small: bool)
    requires 2 <= base <= 36 && num > 0 && i < |before| && num % base < 36
    requires after == before[i := DigitChar(num % base, small)]
    ensures StillToCome(num / base, base, small) + Reversed(after, i + 1)
            == StillToCome(num, base, small) + Reversed(before, i)
  {
    hide DigitChar;
    var front, c := StillToCome(num / base, base, small), [DigitChar(num % base, small)];
    ReversedSame(before, after, i);
    SmallQuotient(num, base);
    assert Digits(num, base, small) == front + c;
    assert front + c + Reversed(before, i) == front + (c + Reversed(before, i));
  }

  lemma SmallQuotient(n: nat, base: nat)
    requires base >= 2 && n > 0
    ensures n < base <==> n / base == 0
    ensures n < base ==> n % base == n
    ensures n / base < n
  {
  }

  /** A loop of the form while (count-- > 0) that writes one character each time. */
  method Pad(str: string, c: char, count: int) returns (out: string, left: int)
    ensures out == str + Rep(c, count) && left == if count > 0 then -1 else count - 1
  {
    out, left := str, count;
    while left > 0
      invariant left == count || 0 <= left < count
      invariant out + Rep(c, left) == str + Rep(c, count)
      decreases left
    {
      left := left - 1;
      assert Rep(c, left + 1) == [c] + Rep(c, left);
      assert out + ([c] + Rep(c, left)) == out + [c] + Rep(c, left);
      out := out + [c];
    }
    left := left - 1;
  }

  /** Lines 46-54: the sign, what remains to print as an unsigned word, and the width left over. */
  method TakeSign(num0: int, base: nat, size0: int, flags: Flags) returns (num: nat, sign: string, size: int)
    requires -SIGN_BIT <= num0 < SIGN_BIT
    ensures sign == SignText(num0, flags) && num == Magnitude(num0, flags) < WORD_LIMIT
    ensures size == size0 - |sign| - |Prefix(base, flags)|
  {
    num, sign, size := Wrap(num0), "", size0;
    if flags.sign && num0 < 0 {
      sign := "-";
      num := Wrap(-num0);
    } else if flags.plus {
      sign := "+";
    } else if flags.space {
      sign := " ";
    }
    if sign != "" {
      size := size - 1;
    }
    if flags.special {
      if base == 16 {
        size := size - 2;
      } else if base == 8 {
        size := size - 1;
      }
    }
  }

  /** The pieces do not depend on the zero flag. */
  lemma ZeropadElsewhere(num: int, base: nat, flags: Flags, zeropad: bool)
    requires -SIGN_BIT <= num < SIGN_BIT
    ensures var other := flags.(zeropad := zeropad);
            && SignText(num, other) == SignText(num, flags) && Prefix(base, other) == Prefix(base, flags)
            && Magnitude(num, other) == Magnitude(num, flags)
  {
  }

  /** number: false for a base it does not print. */
  method PrintNumber(str: string, num0: int, base: int, size0: int, precision0: int, flags0: Flags)
    returns (ok: bool, out: string)
    requires -SIGN_BIT <= num0 < SIGN_BIT
    ensures ok <==> 2 <= base <= 36
    ensures ok ==> out == str + Printed(num0, base, size0, precision0, flags0)
    ensures ok ==> forall i | |str| <= i < |out| ::
                     if flags0.small then !('A' <= out[i] <= 'Z') else !('a' <= out[i] <= 'z')
  {
    hide Digits, Rep, Printed, Reversed, SignText, Prefix, Magnitude, Wrap, DigitChar;
    out := str;
    if base < 2 || base > 36 {
      return false, out;
    }
    var flags := if flags0.left then flags0.(zeropad := false) else flags0;
    var c := if flags.zeropad then '0' else ' ';
    ZeropadElsewhere(num0, base, flags0, false);
    NoPad(c);
    var num, sign, size := TakeSign(num0, base, size0, flags);
    var precision := precision0;
    var tmp, i := FillDigits(num, base, flags.small);
    if i > precision {
      precision := i;
    }
    size := size - precision;
    ghost var spaces, prefix, filled := "", Prefix(base, flags), "";
    if !flags.zeropad && !flags.left {
      spaces := Rep(' ', size);
      out, size := Pad(out, ' ', size);
    }
    assert out == str + spaces;
    out := out + sign;
    out := WritePrefix(out, base, flags);
    if !flags.left {
      filled := if flags.zeropad then Rep(c, size) else "";
      out, size := Pad(out, c, size);
    }
    assert out == str + spaces + sign + prefix + filled;
    ghost var zeros := Rep('0', precision - i);
    out, precision := Pad(out, '0', precision - i);
    out := WriteDigits(out, tmp, i);
    ghost var behind := Rep(' ', size);
    out, size := Pad(out, ' ', size);
    PrintedFrom(str, spaces, sign, prefix, filled, zeros, Digits(num, base, flags.small), behind,
                num0, base, size0, precision0, flags0);
    PrintedInCase(num0, base, size0, precision0, flags0);
    ok := true;
  }

  lemma NoPad(c: char)
    ensures forall n: int | n <= 0 :: Rep(c, n) == ""
  {
  }

  /** Lines 67-73. */
  method WritePrefix(str: string, base: nat, flags: Flags) returns (out: string)
    ensures out == str + Prefix(base, flags)
  {
    out := str;
    if flags.special {
      if base == 8 {
        out := out + "0";
      } else if base == 16 {
        out := out + "0";
        out := out + (if flags.small then "x" else "X");
        assert out == str + Prefix(base, flags);
      }
    }
  }

  /** Lines 79-80. */
  method WriteDigits(str: string, tmp: array<char>, count: nat) returns (out: string)
    requires count <= tmp.Length
    ensures out == str + Reversed(tmp[..], count)
  {
    var i: nat := count;
    out := str;
    while i > 0
      invariant i <= count
      invariant out + Reversed(tmp[..], i) == str + Reversed(tmp[..], count)
    {
      i := i - 1;
      assert out + ([tmp[i]] + Reversed(tmp[..], i)) == out + [tmp[i]] + Reversed(tmp[..], i);
      out := out + [tmp[i]];
    }
    assert out + Reversed(tmp[..], 0) == out;
  }

  /** The pieces written one after another are the number as it should be printed. */
  lemma PrintedFrom(str: string, spaces: string, sign: string, prefix: string, filled: string, zeros: string,
                    digits: string, behind: string, num: int, base: nat, size: int, precision: int, flags: Flags)
    requires -SIGN_BIT <= num < SIGN_BIT && 2 <= base <= 36
    requires sign == SignText(num, flags) && prefix == Prefix(base, flags)
    requires digits == Digits(Magnitude(num, flags), base, flags.small)
    requires zeros == Rep('0', precision - |digits|)
    requires var pad := size - |sign| - |prefix| - Max(precision, |digits|);
             && spaces == (if flags.left || flags.zeropad then "" else Rep(' ', pad))
             && filled == (if !flags.left && flags.zeropad then Rep('0', pad) else "")
             && behind == (if flags.left then Rep(' ', pad) else "")
    ensures str + spaces + sign + prefix + filled + zeros + digits + behind
            == str + Printed(num, base, size, precision, flags)
  {
    hide SignText, Prefix, Digits, Magnitude, Rep;
    var body := zeros + digits;
    assert body == Body(num, base, precision, flags);
    FlattenPieces(str, spaces, sign, prefix, filled, zeros, digits, behind);
  }

  lemma FlattenPieces(a: string, b: string, c: string, d: string, e: string, f: string, g: string, h: string)
    ensures a + b + c + d + e + f + g + h == a + (b + (c + d) + (e + (f + g)) + h)
    ensures b == "" && e == "" ==> b + (c + d) + (e + (f + g)) + h == c + d + (f + g) + h
    ensures b == "" && h == "" ==> b + (c + d) + (e + (f + g)) + h == c + d + e + (f + g)
    ensures e == "" && h == "" ==> b + (c + d) + (e + (f + g)) + h == b + (c + d) + (f + g)
  {
  }
}
