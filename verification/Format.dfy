/** The format interpreter (vsprintf.c:86-231). */
module Format {
  import opened Memory
  import opened Number

  /** One argument of the variable list: a word or a pointer to a string. */
  datatype Arg = Word(v: nat) | Str(s: string)

  const NUL: char := '\0'

  /** The character the format pointer points at; the string ends with a zero. */
  function At(f: string, i: nat): char
  {
    if i < |f| then f[i] else NUL
  }

  // ---- reading one directive, from behind its percent sign

  predicate IsFlag(c: char)
  {
    c == '-' || c == '+' || c == ' ' || c == '#' || c == '0'
  }

  function WithFlag(flags: Flags, c: char): Flags
  {
    match c
    case '-' => flags.(left := true)
    case '+' => flags.(plus := true)
    case ' ' => flags.(space := true)
    case '#' => flags.(special := true)
    case '0' => flags.(zeropad := true)
    case _ => flags
  }

  function FlagRun(f: string): (k: nat)
    ensures k <= |f|
  {
    if |f| > 0 && IsFlag(f[0]) then 1 + FlagRun(f[1..]) else 0
  }

  function FlagsOf(f: string, flags: Flags): Flags
  {
    if |f| == 0 then flags else FlagsOf(f[1..], WithFlag(flags, f[0]))
  }

  /** A number in the format, and how many characters it takes. */
  function NumberAt(f: string): (r: (nat, nat))
    ensures r.1 <= |f|
  {
    var k := DigitRun(f, 10);
    (Fold(f[..k], 10, 0), k)
  }

  /** What stands between a percent sign and the end of its directive. A star takes an argument but is not passed
      over, so it is also the conversion character. The conversion is zero when the format ends first. */
  datatype Directive = Directive(flags: Flags, width: int, precision: int, stars: nat, conv: char, length: nat)

  /** From the precision on; k characters have been read. */
  function Tail(f: string, k: nat, flags: Flags, width: int, stars: nat): Directive
    requires k <= |f|
  {
    if At(f, k) == '.' then
      var n := NumberAt(f[k + 1..]);
      if n.1 > 0 then Conversion(f, k + 1 + n.1, flags, width, n.0, stars)
      else Conversion(f, k + 1, flags, width, 0, stars + if At(f, k + 1) == '*' then 1 else 0)
    else
      Conversion(f, k, flags, width, -1, stars)
  }

  function Conversion(f: string, k: nat, flags: Flags, width: int, precision: int, stars: nat): Directive
  {
    var q := if At(f, k) == 'h' || At(f, k) == 'l' || At(f, k) == 'L' then k + 1 else k;
    Directive(flags, width, precision, stars, At(f, q), if q < |f| then q + 1 else q)
  }

  function ReadDirective(f: string): Directive
  {
    var k := FlagRun(f);
    var flags := FlagsOf(f[..k], NO_FLAGS);
    var n := NumberAt(f[k..]);
    if n.1 > 0 then Tail(f, k + n.1, flags, n.0, 0)
    else Tail(f, k, flags, -1, if At(f, k) == '*' then 1 else 0)
  }

  /** No number in the directive overflows the int it is read into. */
  predicate SmallNumbers(d: Directive)
  {
    d.width < SIGN_BIT && d.precision < SIGN_BIT
  }

  // ---- what a directive prints

  /** The text and the arguments left over; nothing when the arguments do not fit the directive. */
  datatype Out = Undefined | Out(text: string, rest: seq<Arg>)

  function NumberOut(d: Directive, args: seq<Arg>, base: nat, width: int, flags: Flags): Out
    requires 2 <= base <= 36
  {
    if |args| > 0 && args[0].Word? && args[0].v < WORD_LIMIT
    then Out(Printed(Signed(args[0].v), base, width, d.precision, flags), args[1..])
    else Undefined
  }

  function CharOut(d: Directive, args: seq<Arg>): Out
  {
    if |args| > 0 && args[0].Word? then
      var c := [(args[0].v % 256) as char];
      Out(if d.flags.left then c + Rep(' ', d.width - 1) else Rep(' ', d.width - 1) + c, args[1..])
    else Undefined
  }

  function StringOut(d: Directive, args: seq<Arg>): Out
  {
    if |args| > 0 && args[0].Str? && |args[0].s| < SIGN_BIT then
      var s := args[0].s;
      var len := if 0 <= d.precision < |s| then d.precision else |s|;
      Out(if d.flags.left then s[..len] + Rep(' ', d.width - len) else Rep(' ', d.width - len) + s[..len], args[1..])
    else Undefined
  }

  function Literal(c: char): string
  {
    (if c != '%' then "%" else "") + (if c != NUL then [c] else "")
  }

  function Render(d: Directive, args: seq<Arg>): Out
  {
    match d.conv
    case 'c' => CharOut(d, args)
    case 's' => StringOut(d, args)
    case 'o' => NumberOut(d, args, 8, d.width, d.flags)
    case 'p' =>
      if d.width == -1 then NumberOut(d, args, 16, 8, d.flags.(zeropad := true))
      else NumberOut(d, args, 16, d.width, d.flags)
    case 'x' => NumberOut(d, args, 16, d.width, d.flags.(small := true))
    case 'X' => NumberOut(d, args, 16, d.width, d.flags)
    case 'd' => NumberOut(d, args, 10, d.width, d.flags.(sign := true))
    case 'i' => NumberOut(d, args, 10, d.width, d.flags.(sign := true))
    case 'u' => NumberOut(d, args, 10, d.width, d.flags)
    case 'b' => NumberOut(d, args, 2, d.width, d.flags)
    case 'n' => Undefined
    case _ =>
      if d.stars <= |args| && (d.stars > 0 ==> args[0].Word? && args[0].v < WORD_LIMIT)
      then Out(Literal(d.conv), args[d.stars..]) else Undefined
  }

  // ---- what a format means

  /** Literal characters stand for themselves; each directive is rendered with the arguments left by those before. */
  function Denote(f: string, args: seq<Arg>): Out
    decreases |f|
  {
    if |f| == 0 then Out("", args)
    else if f[0] != '%' then Then([f[0]], Denote(f[1..], args))
    else
      var d := ReadDirective(f[1..]);
      if !SmallNumbers(d) then Undefined else
        DirectiveLength(f[1..]);
        match Render(d, args)
        case Undefined => Undefined
        case Out(text, rest) => Then(text, Denote(f[1 + d.length..], rest))
  }

  function Then(text: string, o: Out): Out
  {
    match o
    case Undefined => Undefined
    case Out(more, rest) => Out(text + more, rest)
  }

  /** The first step of a format that has a meaning. */
  lemma DenoteDefined(f: string, args: seq<Arg>)
    requires |f| > 0 && Denote(f, args).Out?
    ensures f[0] != '%' ==> Denote(f, args) == Then([f[0]], Denote(f[1..], args))
    ensures f[0] == '%' ==> SmallNumbers(ReadDirective(f[1..])) && Render(ReadDirective(f[1..]), args).Out?
  {
    hide Render, ReadDirective, SmallNumbers;
  }

  /** One directive, one step. */
  lemma DenoteDirective(f: string, args: seq<Arg>, d: Directive)
    requires |f| > 0 && f[0] == '%' && d == ReadDirective(f[1..]) && SmallNumbers(d)
    ensures d.length < |f|
    ensures Denote(f, args) == match Render(d, args)
                               case Undefined => Undefined
                               case Out(text, rest) => Then(text, Denote(f[1 + d.length..], rest))
  {
    hide Render, ReadDirective, SmallNumbers;
    DirectiveLength(f[1..]);
  }

  lemma DirectiveLength(f: string)
    ensures ReadDirective(f).length <= |f|
    ensures ReadDirective(f).conv != NUL ==> ReadDirective(f).length > 0
  {
  }

  // ---- directives as they are written

  /** The parts of a directive behind its percent sign: flag characters, the digits of the width, the precision with
      its point, a qualifier, and the conversion character. */
  datatype Written = Written(marks: string, width: string, point: bool, precision: string, qualifier: string,
                             conv: char)
  {
    function Text(): string
    {
      marks + (width + ((if point then "." + precision else "") + (qualifier + [conv])))
    }

    predicate Valid()
    {
      && (forall i | 0 <= i < |marks| :: marks[i] in "-+ #0")
      && AllDigits(width, 10) && (width != "" ==> width[0] != '0') && Fold(width, 10, 0) < 0x8000_0000
      && AllDigits(precision, 10) && Fold(precision, 10, 0) < 0x8000_0000 && (!point ==> precision == "")
      && qualifier in ["", "h", "l", "L"]
      && conv !in "-+ #0123456789.*hlL\0"
    }

    /** The width and the precision it asks for; -1 for none. A point alone asks for the precision 0. */
    function Width(): int
    {
      if width == "" then -1 else Fold(width, 10, 0)
    }

    function Precision(): int
    {
      if !point then -1 else Fold(precision, 10, 0)
    }
  }

  /** A written directive is read as it is written, whatever follows it: each flag is set exactly if its character is
      there, in any order and any number of times. */
  lemma WrittenIsRead(w: Written, rest: string)
    requires w.Valid()
    ensures var d := ReadDirective(w.Text() + rest);
            && d.flags == Flags('0' in w.marks, false, '+' in w.marks, ' ' in w.marks, '-' in w.marks,
                                '#' in w.marks, false)
            && d.width == w.Width() && d.precision == w.Precision() && d.stars == 0
            && d.conv == w.conv && d.length == |w.Text()|
  {
    hide FlagRun, FlagsOf, NumberAt, Fold, AllDigits, Tail, BehindWidth, Written.Precision;
    var f, behind := w.Text() + rest, BehindWidth(w, rest);
    var k := |w.marks| + |w.width|;
    BehindMarks(w, rest);
    forall i | 0 <= i < |w.marks|
      ensures IsFlag(w.marks[i])
    {
      FlagCharacters(w.marks[i]);
    }
    FlagsRead(w.marks, w.width + behind, NO_FLAGS);
    TextBehindMarks(w, rest);
    NumberRead(w.width, behind);
    assert f[k..] == behind;
    assert At(f, k) == behind[0];
    TailRead(f, k, w, rest, FlagsOf(w.marks, NO_FLAGS), w.Width());
  }

  lemma TextBehindMarks(w: Written, rest: string)
    ensures var f, behind := w.Text() + rest, BehindWidth(w, rest);
            && f == w.marks + (w.width + behind) && f[..|w.marks|] == w.marks && f[|w.marks|..] == w.width + behind
            && |w.Text()| == |w.marks| + |w.width| + |behind| - |rest|
  {
    var f, behind := w.Text() + rest, BehindWidth(w, rest);
    assert f == w.marks + (w.width + behind);
  }

  lemma TailRead(f: string, k: nat, w: Written, rest: string, flags: Flags, width: int)
    requires w.Valid() && k <= |f| && f[k..] == BehindWidth(w, rest)
    ensures Tail(f, k, flags, width, 0)
            == Directive(flags, width, w.Precision(), 0, w.conv, k + |BehindWidth(w, rest)| - |rest|)
  {
    hide NumberAt, Fold, AllDigits, Conversion;
    var last := w.qualifier + [w.conv] + rest;
    BehindMarks(w, rest);
    assert At(f, k) == f[k..][0];
    if w.point {
      NumberRead(w.precision, last);
      assert f[k + 1..] == w.precision + last;
      assert f[k + 1 + |w.precision|..] == last;
      assert At(f, k + 1 + |w.precision|) == last[0];
      EmptyFold(w.precision);
      ConversionRead(f, k + 1 + |w.precision|, w, rest);
    } else {
      assert f[k..] == last;
      ConversionRead(f, k, w, rest);
    }
  }

  lemma EmptyFold(digits: string)
    ensures digits == "" ==> Fold(digits, 10, 0) == 0
  {
  }

  function BehindWidth(w: Written, rest: string): string
  {
    (if w.point then "." + w.precision else "") + (w.qualifier + [w.conv] + rest)
  }

  lemma BehindMarks(w: Written, rest: string)
    requires w.Valid()
    ensures var last, behind := w.qualifier + [w.conv] + rest, BehindWidth(w, rest);
            && |last| > 0 && !('0' <= last[0] <= '9') && last[0] != '*' && last[0] != '.'
            && |behind| > 0 && !('0' <= behind[0] <= '9') && behind[0] != '*' && (behind[0] == '.' <==> w.point)
            && !IsFlag((w.width + behind)[0])
  {
    var last := w.qualifier + [w.conv] + rest;
    assert last[0] == if w.qualifier == "" then w.conv else w.qualifier[0];
    assert BehindWidth(w, rest)[0] == if w.point then '.' else last[0];
  }

  lemma ConversionRead(f: string, k: nat, w: Written, rest: string)
    requires k <= |f| && f[k..] == w.qualifier + [w.conv] + rest
    requires w.qualifier in ["", "h", "l", "L"] && w.conv !in "hlL"
    ensures forall flags, width, precision, stars ::
              Conversion(f, k, flags, width, precision, stars)
              == Directive(flags, width, precision, stars, w.conv, k + |w.qualifier| + 1)
  {
  }

  lemma {:induction false} FlagsRead(marks: string, rest: string, flags: Flags)
    requires (forall i | 0 <= i < |marks| :: IsFlag(marks[i])) && (|rest| > 0 ==> !IsFlag(rest[0]))
    ensures FlagRun(marks + rest) == |marks| && FlagsOf(marks, flags) == Marked(flags, marks)
    decreases |marks|
  {
    hide IsFlag, Marked, WithFlag;
    if |marks| == 0 {
      assert marks + rest == rest;
      OneMark(flags, marks);
    } else {
      assert (marks + rest)[1..] == marks[1..] + rest;
      FlagsRead(marks[1..], rest, WithFlag(flags, marks[0]));
      OneMark(flags, marks);
    }
  }

  lemma OneMark(flags: Flags, marks: string)
    ensures |marks| == 0 ==> Marked(flags, marks) == flags
    ensures |marks| > 0 ==> Marked(flags, marks) == Marked(WithFlag(flags, marks[0]), marks[1..])
  {
    if |marks| > 0 {
      hide Has;
      CharIn('0', marks);
      CharIn('+', marks);
      CharIn(' ', marks);
      CharIn('-', marks);
      CharIn('#', marks);
    }
  }

  lemma CharIn(c: char, s: string)
    requires |s| > 0
    ensures Has(s, c) <==> c == s[0] || Has(s[1..], c)
  {
  }

  lemma FlagCharacters(c: char)
    ensures IsFlag(c) <==> c in "-+ #0"
  {
  }

  predicate Has(s: string, c: char)
  {
    c in s
  }

  function Marked(flags: Flags, marks: string): Flags
  {
    Flags(flags.zeropad || Has(marks, '0'), flags.sign, flags.plus || Has(marks, '+'), flags.space || Has(marks, ' '),
          flags.left || Has(marks, '-'), flags.special || Has(marks, '#'), flags.small)
  }

  lemma NumberRead(digits: string, rest: string)
    requires AllDigits(digits, 10) && (|rest| > 0 ==> !('0' <= rest[0] <= '9'))
    ensures NumberAt(digits + rest) == (Fold(digits, 10, 0), |digits|)
  {
    hide DigitValue, AllDigits, DigitRun, Fold;
    if |rest| > 0 {
      NoDecimal(rest[0]);
    }
    RunOf(digits, rest, 10);
    assert (digits + rest)[..|digits|] == digits;
  }

  lemma NoDecimal(c: char)
    requires !('0' <= c <= '9')
    ensures DigitValue(c) >= 10
  {
  }

  lemma WrittenDenotes(w: Written, rest: string, args: seq<Arg>)
    requires w.Valid()
    ensures var d := ReadDirective(w.Text() + rest);
            Denote("%" + w.Text() + rest, args) == match Render(d, args)
                                                   case Undefined => Undefined
                                                   case Out(text, left) => Then(text, Denote(rest, left))
  {
    hide ReadDirective, Render, Denote, Written.Text, Fold, AllDigits;
    var f := "%" + w.Text() + rest;
    WrittenIsRead(w, rest);
    assert f[1..] == w.Text() + rest && f[1 + |w.Text()|..] == rest;
    DenoteDirective(f, args, ReadDirective(w.Text() + rest));
  }

  /** What a directive for a number prints: the word in the base of its conversion character, with its sign for d and i
      only, in small letters for x only; p without a width prints eight places with zeros. */
  lemma NumberPrinted(w: Written, rest: string, v: nat, more: seq<Arg>) returns (p: Parts)
    requires w.Valid() && v < 0x1_0000_0000 && w.conv in "diuoxXpb"
    ensures Denote("%" + w.Text() + rest, [Word(v)] + more) == Then(p.Text(), Denote(rest, more))
    ensures var base := if w.conv in "diu" then 10 else if w.conv == 'o' then 8 else if w.conv == 'b' then 2 else 16;
            var pointer := w.conv == 'p' && w.width == "";
            var flags := Flags('0' in w.marks || pointer, w.conv in "di", '+' in w.marks, ' ' in w.marks,
                               '-' in w.marks, '#' in w.marks, w.conv == 'x');
            var num := if v < 0x8000_0000 then v else v - 0x1_0000_0000;
            && Describes(p, num, base, if pointer then 8 else w.Width(), w.Precision(), flags)
            && Read(p.Text(), base, flags) == Returned(if w.conv in "di" then num else v)
  {
    hide Describes, Printed, Read, Denote, Render, ReadDirective, Written.Text, Written.Valid, Fold;
    var base := if w.conv in "diu" then 10 else if w.conv == 'o' then 8 else if w.conv == 'b' then 2 else 16;
    var pointer := w.conv == 'p' && w.width == "";
    var flags := Flags('0' in w.marks || pointer, w.conv in "di", '+' in w.marks, ' ' in w.marks, '-' in w.marks,
                       '#' in w.marks, w.conv == 'x');
    var width := if pointer then 8 else w.Width();
    WrittenIsRead(w, rest);
    WrittenDenotes(w, rest, [Word(v)] + more);
    p := PrintedParts(Signed(v), base, width, w.Precision(), flags);
    PrintedReadsBack(Signed(v), base, width, w.Precision(), flags);
    NumberRendered(ReadDirective(w.Text() + rest), v, more, base, width, flags);
  }

  lemma NumberRendered(d: Directive, v: nat, more: seq<Arg>, base: nat, width: int, flags: Flags)
    requires v < WORD_LIMIT && d.conv in "diuoxXpb" && !d.flags.sign && !d.flags.small
    requires base == if d.conv in "diu" then 10 else if d.conv == 'o' then 8 else if d.conv == 'b' then 2 else 16
    requires width == if d.conv == 'p' && d.width == -1 then 8 else d.width
    requires flags == d.flags.(zeropad := d.flags.zeropad || (d.conv == 'p' && d.width == -1), sign := d.conv in "di",
                               small := d.conv == 'x')
    ensures Render(d, [Word(v)] + more) == Out(Printed(Signed(v), base, width, d.precision, flags), more)
  {
    hide Printed;
    assert ([Word(v)] + more)[1..] == more;
  }

  /** The character of a word is its low byte, at one end of the field, with spaces in the rest of it. */
  lemma CharacterPrinted(w: Written, rest: string, v: nat, more: seq<Arg>) returns (text: string)
    requires w.Valid() && w.conv == 'c'
    ensures Denote("%" + w.Text() + rest, [Word(v)] + more) == Then(text, Denote(rest, more))
    ensures |text| == Max(1, w.Width())
    ensures var at := if '-' in w.marks then 0 else |text| - 1;
            text[at] as nat == v % 256 && forall i | 0 <= i < |text| && i != at :: text[i] == ' '
  {
    hide Denote, ReadDirective, Written.Text, Written.Valid, Fold;
    WrittenIsRead(w, rest);
    WrittenDenotes(w, rest, [Word(v)] + more);
    var d := ReadDirective(w.Text() + rest);
    text := CharOut(d, [Word(v)] + more).text;
    assert ([Word(v)] + more)[1..] == more;
  }

  /** A string is cut to the precision and stands at one end of the field, with spaces in the rest of it. */
  lemma StringPrinted(w: Written, rest: string, s: string, more: seq<Arg>) returns (text: string)
    requires w.Valid() && w.conv == 's' && |s| < 0x8000_0000
    ensures Denote("%" + w.Text() + rest, [Str(s)] + more) == Then(text, Denote(rest, more))
    ensures var shown := if w.point && w.Precision() < |s| then s[..w.Precision()] else s;
            var at := if '-' in w.marks then 0 else |text| - |shown|;
            && |text| == Max(|shown|, w.Width()) && text[at..at + |shown|] == shown
            && forall i | 0 <= i < |text| && !(at <= i < at + |shown|) :: text[i] == ' '
  {
    hide Denote, Render, ReadDirective, Written.Text, Written.Valid, Fold;
    WrittenIsRead(w, rest);
    WrittenDenotes(w, rest, [Str(s)] + more);
    WidthAndPrecision(w);
    text := StringRendered(ReadDirective(w.Text() + rest), s, more);
  }

  lemma WidthAndPrecision(w: Written)
    ensures w.Width() >= -1 && w.Precision() >= -1 && (w.Precision() >= 0 <==> w.point)
  {
  }

  lemma StringRendered(d: Directive, s: string, more: seq<Arg>) returns (text: string)
    requires d.conv == 's' && |s| < SIGN_BIT
    ensures Render(d, [Str(s)] + more) == Out(text, more)
    ensures var shown := if 0 <= d.precision < |s| then s[..d.precision] else s;
            var at := if d.flags.left then 0 else |text| - |shown|;
            && |text| == Max(|shown|, d.width) && text[at..at + |shown|] == shown
            && forall i | 0 <= i < |text| && !(at <= i < at + |shown|) :: text[i] == ' '
  {
    hide Rep;
    var len := if 0 <= d.precision < |s| then d.precision else |s|;
    assert s[..|s|] == s;
    text := InField(s[..len], d.width, d.flags.left);
    assert ([Str(s)] + more)[1..] == more;
  }

  lemma InField(shown: string, width: int, left: bool) returns (text: string)
    ensures text == if left then shown + Rep(' ', width - |shown|) else Rep(' ', width - |shown|) + shown
    ensures var at := if left then 0 else |text| - |shown|;
            && |text| == Max(|shown|, width) && text[at..at + |shown|] == shown
            && forall i | 0 <= i < |text| && !(at <= i < at + |shown|) :: text[i] == ' '
  {
    var pad := Rep(' ', width - |shown|);
    text := if left then shown + pad else pad + shown;
  }

  /** Any other character prints itself with a percent sign in front and takes no argument; flags, width and precision
      are lost. A percent sign prints itself alone. */
  lemma OtherPrinted(w: Written, rest: string, args: seq<Arg>)
    requires w.Valid() && w.conv !in "cspoxXdiubn"
    ensures Denote("%" + w.Text() + rest, args)
            == Then(if w.conv == '%' then "%" else "%" + [w.conv], Denote(rest, args))
  {
    hide Denote, ReadDirective, Written.Text, Fold;
    WrittenIsRead(w, rest);
    WrittenDenotes(w, rest, args);
    assert args[0..] == args && "" + [w.conv] == [w.conv];
  }

  /** A star, for the width or for the precision, takes an argument and prints itself: it is still unread when the
      conversion character is looked for. */
  lemma StarPrinted(marks: string, width: string, point: bool, rest: string, v: nat, more: seq<Arg>)
    requires (forall i | 0 <= i < |marks| :: marks[i] in "-+ #0") && (!point ==> width == "")
    requires AllDigits(width, 10) && (width != "" ==> width[0] != '0') && Fold(width, 10, 0) < 0x8000_0000
    requires v < 0x1_0000_0000
    ensures var f := marks + (width + ((if point then "." else "") + ("*" + rest)));
            Denote("%" + f, [Word(v)] + more) == Then("%*", Denote(rest, more))
  {
    hide Denote, ReadDirective, Fold, AllDigits, FlagRun, FlagsOf;
    var f := marks + (width + ((if point then "." else "") + ("*" + rest)));
    var d := StarRead(marks, width, point, rest);
    assert ("%" + f)[1..] == f && ("%" + f)[1 + d.length..] == rest;
    assert ([Word(v)] + more)[1..] == more && "%" + "*" == "%*";
    DenoteDirective("%" + f, [Word(v)] + more, d);
  }

  lemma StarRead(marks: string, width: string, point: bool, rest: string) returns (d: Directive)
    requires (forall i | 0 <= i < |marks| :: marks[i] in "-+ #0") && (!point ==> width == "")
    requires AllDigits(width, 10) && (width != "" ==> width[0] != '0') && Fold(width, 10, 0) < 0x8000_0000
    ensures var f := marks + (width + ((if point then "." else "") + ("*" + rest)));
            && d == ReadDirective(f) && d.conv == '*' && d.stars == 1 && d.length == |f| - |rest| && SmallNumbers(d)
  {
    hide FlagRun, FlagsOf, NumberAt, Fold, AllDigits, IsFlag, Tail;
    var behind := (if point then "." else "") + ("*" + rest);
    var f := marks + (width + behind);
    d := ReadDirective(f);
    var k := |marks| + |width|;
    FirstOfWidth(width, behind);
    forall i | 0 <= i < |marks|
      ensures IsFlag(marks[i])
    {
      FlagCharacters(marks[i]);
    }
    FlagsRead(marks, width + behind, NO_FLAGS);
    assert f[..|marks|] == marks && f[|marks|..] == width + behind;
    NumberRead(width, behind);
    assert f[k..] == behind && At(f, k) == behind[0];
    StarTail(f, k, point, rest, FlagsOf(marks, NO_FLAGS), if width == "" then -1 else Fold(width, 10, 0));
  }

  lemma StarTail(f: string, k: nat, point: bool, rest: string, flags: Flags, width: int)
    requires k <= |f| && f[k..] == (if point then "." else "") + ("*" + rest)
    ensures At(f, k) == if point then '.' else '*'
    ensures Tail(f, k, flags, width, if point then 0 else 1)
            == Directive(flags, width, if point then 0 else -1, 1, '*', |f| - |rest|)
  {
    hide NumberAt, Fold;
    assert At(f, k) == f[k..][0];
    if point {
      NumberRead("", "*" + rest);
      assert f[k + 1..] == "*" + rest == "" + ("*" + rest);
      assert At(f, k + 1) == '*';
    }
  }

  lemma FirstOfWidth(width: string, behind: string)
    requires AllDigits(width, 10) && (width != "" ==> width[0] != '0')
    requires |behind| > 0 && behind[0] in ".*"
    ensures !IsFlag((width + behind)[0]) && !('0' <= behind[0] <= '9')
  {
  }

  // ---- the parts of a format

  /** Every directive of the format ends inside it. */
  predicate Closed(f: string)
    decreases |f|
  {
    |f| == 0 ||
    if f[0] != '%' then Closed(f[1..]) else
      var d := ReadDirective(f[1..]);
      DirectiveLength(f[1..]);
      d.conv != NUL && Closed(f[1 + d.length..])
  }

  predicate NoNul(f: string)
  {
    forall i | 0 <= i < |f| :: f[i] != NUL
  }

  lemma {:induction false} FlagRunJoin(f: string, g: string)
    requires FlagRun(f) < |f|
    ensures FlagRun(f + g) == FlagRun(f)
    decreases |f|
  {
    assert (f + g)[1..] == f[1..] + g;
    if IsFlag(f[0]) {
      FlagRunJoin(f[1..], g);
    }
  }

  lemma NumberAtJoin(f: string, g: string)
    requires DigitRun(f, 10) < |f|
    ensures NumberAt(f + g) == NumberAt(f)
  {
    hide DigitRun, Fold, AllDigits, DigitValue;
    var k := DigitRun(f, 10);
    RunJoin(f, g, k);
    assert (f + g)[..k] == f[..k];
  }

  lemma RunJoin(f: string, g: string, k: nat)
    requires k == DigitRun(f, 10) < |f|
    ensures DigitRun(f + g, 10) == k
  {
    hide AllDigits, DigitRun, DigitValue;
    var run, rest := f[..k], f[k..] + g;
    assert rest[0] == f[k];
    RunOf(run, rest, 10);
    assert f == run + f[k..] && f + g == run + rest;
  }

  lemma ConversionJoin(f: string, g: string, k: nat, flags: Flags, width: int, precision: int, stars: nat)
    requires Conversion(f, k, flags, width, precision, stars).conv != NUL && k <= |f|
    ensures Conversion(f + g, k, flags, width, precision, stars) == Conversion(f, k, flags, width, precision, stars)
  {
  }

  lemma TailJoin(f: string, g: string, k: nat, flags: Flags, width: int, stars: nat)
    requires k <= |f| && Tail(f, k, flags, width, stars).conv != NUL
    ensures Tail(f + g, k, flags, width, stars) == Tail(f, k, flags, width, stars)
  {
    hide NumberAt, Conversion;
    if At(f, k) == '.' {
      var n := NumberAt(f[k + 1..]);
      assert (f + g)[k + 1..] == f[k + 1..] + g;
      PastTheEnd(f, k + 1 + n.1, flags, width, if n.1 > 0 then n.0 else 0,
                 stars + if n.1 == 0 && At(f, k + 1) == '*' then 1 else 0);
      NumberLength(f[k + 1..]);
      NumberAtJoin(f[k + 1..], g);
      if n.1 > 0 {
        ConversionJoin(f, g, k + 1 + n.1, flags, width, n.0, stars);
      } else {
        ConversionJoin(f, g, k + 1, flags, width, 0, stars + if At(f, k + 1) == '*' then 1 else 0);
      }
    } else {
      PastTheEnd(f, k, flags, width, -1, stars);
      ConversionJoin(f, g, k, flags, width, -1, stars);
    }
  }

  lemma NumberLength(f: string)
    ensures NumberAt(f).1 == DigitRun(f, 10)
  {
  }

  lemma PastTheEnd(f: string, k: nat, flags: Flags, width: int, precision: int, stars: nat)
    ensures k >= |f| ==> Conversion(f, k, flags, width, precision, stars).conv == NUL
  {
  }

  /** A directive that ends in a format is the same directive when more follows. */
  lemma DirectiveJoin(f: string, g: string)
    requires ReadDirective(f).conv != NUL
    ensures ReadDirective(f + g) == ReadDirective(f)
  {
    hide NumberAt, Tail;
    var k := FlagRun(f);
    var flags := FlagsOf(f[..k], NO_FLAGS);
    var n := NumberAt(f[k..]);
    TailPastTheEnd(f, k + n.1, flags, if n.1 > 0 then n.0 else -1, if n.1 == 0 && At(f, k) == '*' then 1 else 0);
    FlagRunJoin(f, g);
    assert (f + g)[..k] == f[..k] && (f + g)[k..] == f[k..] + g;
    NumberLength(f[k..]);
    NumberAtJoin(f[k..], g);
    TailJoin(f, g, k + n.1, flags, if n.1 > 0 then n.0 else -1, if n.1 == 0 && At(f, k) == '*' then 1 else 0);
  }

  lemma TailPastTheEnd(f: string, k: nat, flags: Flags, width: int, stars: nat)
    requires k <= |f|
    ensures k == |f| ==> Tail(f, k, flags, width, stars).conv == NUL
  {
  }

  /** A format cut between directives means its two parts, the second with the arguments the first leaves. */
  lemma {:induction false} DenoteJoin(f: string, g: string, args: seq<Arg>)
    requires Closed(f)
    ensures Denote(f + g, args) == match Denote(f, args)
                                   case Undefined => Undefined
                                   case Out(text, rest) => Then(text, Denote(g, rest))
    decreases |f|
  {
    hide Render, ReadDirective;
    if |f| == 0 {
      assert f + g == g;
      ThenNothing(Denote(g, args));
    } else if f[0] != '%' {
      assert (f + g)[1..] == f[1..] + g;
      DenoteJoin(f[1..], g, args);
      ThenJoin([f[0]], f[1..], g, args);
    } else {
      var d := ReadDirective(f[1..]);
      DirectiveLength(f[1..]);
      assert (f + g)[1..] == f[1..] + g;
      DirectiveJoin(f[1..], g);
      var after := f[1 + d.length..];
      assert (f + g)[1 + d.length..] == after + g;
      if SmallNumbers(d) && Render(d, args).Out? {
        DenoteJoin(after, g, Render(d, args).rest);
        ThenJoin(Render(d, args).text, after, g, Render(d, args).rest);
      }
    }
  }

  lemma ThenNothing(o: Out)
    ensures Then("", o) == o
  {
    if o.Out? {
      assert "" + o.text == o.text;
    }
  }

  lemma ThenJoin(head: string, f: string, g: string, args: seq<Arg>)
    ensures Denote(f, args).Out? ==>
              var o := Denote(f, args);
              Then(head, Then(o.text, Denote(g, o.rest))) == Then(head + o.text, Denote(g, o.rest))
  {
    if Denote(f, args).Out? {
      var o := Denote(f, args);
      if Denote(g, o.rest).Out? {
        var t := Denote(g, o.rest).text;
        assert head + (o.text + t) == head + o.text + t;
      }
    }
  }

  /** Arguments behind those a format takes are left alone and change nothing. */
  lemma {:induction false} ExtraArguments(f: string, args: seq<Arg>, more: seq<Arg>)
    requires Denote(f, args).Out?
    ensures Denote(f, args + more) == Out(Denote(f, args).text, Denote(f, args).rest + more)
    decreases |f|
  {
    hide Render, ReadDirective;
    if |f| == 0 {
    } else if f[0] != '%' {
      ExtraArguments(f[1..], args, more);
    } else {
      var d := ReadDirective(f[1..]);
      DirectiveLength(f[1..]);
      RenderMore(d, args, more);
      ExtraArguments(f[1 + d.length..], Render(d, args).rest, more);
    }
  }

  lemma RenderMore(d: Directive, args: seq<Arg>, more: seq<Arg>)
    requires Render(d, args).Out?
    ensures Render(d, args + more) == Out(Render(d, args).text, Render(d, args).rest + more)
  {
    hide Printed, Rep, Signed;
    assert d.stars <= |args| ==> (args + more)[d.stars..] == args[d.stars..] + more;
    if |args| > 0 {
      assert (args + more)[1..] == args[1..] + more;
    }
  }

  /** Two formats, each with the arguments it takes, print side by side. */
  lemma PrintedSideBySide(f: string, a: seq<Arg>, g: string, b: seq<Arg>)
    requires Closed(f) && Denote(f, a).Out? && Denote(f, a).rest == [] && Denote(g, b).Out?
    ensures Denote(f + g, a + b) == Out(Denote(f, a).text + Denote(g, b).text, Denote(g, b).rest)
  {
    ExtraArguments(f, a, b);
    assert [] + b == b;
    DenoteJoin(f, g, a + b);
  }

  /** A text with every percent sign doubled. */
  function Escape(s: string): string
  {
    if |s| == 0 then "" else (if s[0] == '%' then "%%" else [s[0]]) + Escape(s[1..])
  }

  /** Every text can be printed through the formatter, and no part of it is taken for a directive. */
  lemma {:induction false} EscapedPrintsItself(s: string, args: seq<Arg>)
    ensures Denote(Escape(s), args) == Out(s, args) && Closed(Escape(s))
  {
    if |s| > 0 {
      var rest := Escape(s[1..]);
      EscapedPrintsItself(s[1..], args);
      assert [s[0]] + s[1..] == s;
      if s[0] == '%' {
        PercentPercent(rest, args);
      } else {
        assert ([s[0]] + rest)[1..] == rest;
      }
    }
  }

  lemma PercentPercent(rest: string, args: seq<Arg>)
    ensures Denote("%%" + rest, args) == Then("%", Denote(rest, args))
    ensures Closed("%%" + rest) == Closed(rest)
  {
    hide Denote, ReadDirective;
    var f := "%%" + rest;
    var d := Directive(NO_FLAGS, -1, -1, 0, '%', 1);
    PercentDirective(rest);
    assert f[1..] == "%" + rest && f[2..] == rest && args[0..] == args;
    assert Literal('%') == "%";
    DenoteDirective(f, args, d);
  }

  lemma PercentDirective(rest: string)
    ensures ReadDirective("%" + rest) == Directive(NO_FLAGS, -1, -1, 0, '%', 1)
  {
    var f := "%" + rest;
    assert f[0] == '%' && f[..0] == "" && f[0..] == f;
    assert DigitRun(f, 10) == 0;
  }

  /** A format that ends in the middle of a directive is no error: a lone percent sign prints itself. */
  lemma TrailingPercent(f: string, args: seq<Arg>)
    requires Closed(f) && Denote(f, args).Out?
    ensures Denote(f + "%", args) == Out(Denote(f, args).text + "%", Denote(f, args).rest)
  {
    hide Denote, Closed, ReadDirective;
    var o := Denote(f, args);
    DenoteJoin(f, "%", args);
    EmptyDirective();
    assert "%"[1..] == "" && o.rest[0..] == o.rest && Literal(NUL) == "%" && "%" + "" == "%";
    DenoteDirective("%", o.rest, Directive(NO_FLAGS, -1, -1, 0, NUL, 0));
    DenoteEmpty(o.rest);
  }

  lemma DenoteEmpty(args: seq<Arg>)
    ensures Denote("", args) == Out("", args)
  {
  }

  lemma EmptyDirective()
    ensures ReadDirective("") == Directive(NO_FLAGS, -1, -1, 0, NUL, 0)
  {
    assert ""[..0] == "" && ""[0..] == "";
    assert DigitRun("", 10) == 0 && FlagRun("") == 0;
  }

  // ---- the loop over the format

  /** The flags behind a percent sign, one goto at a time. The format pointer f points behind the percent sign, and
      k is how far it has moved since. */
  method ReadFlags(f: string) returns (flags: Flags, k: nat)
    ensures k == FlagRun(f) && flags == FlagsOf(f[..k], NO_FLAGS)
  {
    flags, k := NO_FLAGS, 0;
    while IsFlag(At(f, k))
      invariant k <= |f| && k + FlagRun(f[k..]) == FlagRun(f)
      invariant FlagsOf(f[k..][..FlagRun(f[k..])], flags) == FlagsOf(f[..FlagRun(f)], NO_FLAGS)
      decreases |f| - k
    {
      OneFlag(f[k..], flags);
      assert f[k..][1..] == f[k + 1..];
      flags := WithFlag(flags, f[k]);
      k := k + 1;
    }
  }

  lemma OneFlag(f: string, flags: Flags)
    requires |f| > 0 && IsFlag(f[0])
    ensures FlagRun(f) == 1 + FlagRun(f[1..])
    ensures FlagsOf(f[..FlagRun(f)], flags) == FlagsOf(f[1..][..FlagRun(f[1..])], WithFlag(flags, f[0]))
  {
    assert f[..FlagRun(f)][1..] == f[1..][..FlagRun(f[1..])];
  }

  /** A width or a precision: digits of the format, or the next argument at a star, which stays unread; -1 otherwise. */
  method ReadCount(f: string, start: nat, args0: seq<Arg>) returns (n: int, k: nat, args: seq<Arg>)
    requires start <= |f|
    requires NumberAt(f[start..]).1 > 0 ==> NumberAt(f[start..]).0 < SIGN_BIT
    requires NumberAt(f[start..]).1 == 0 && At(f, start) == '*'
             ==> |args0| > 0 && args0[0].Word? && args0[0].v < WORD_LIMIT
    ensures k == start + NumberAt(f[start..]).1
    ensures NumberAt(f[start..]).1 > 0 ==> n == NumberAt(f[start..]).0 && args == args0
    ensures NumberAt(f[start..]).1 == 0 && At(f, start) == '*' ==> n == Signed(args0[0].v) && args == args0[1..]
    ensures NumberAt(f[start..]).1 == 0 && At(f, start) != '*' ==> n == -1 && args == args0
  {
    n, k, args := -1, start, args0;
    ghost var run := DigitRun(f[start..], 10);
    assert f[start..][..run] == f[start..start + run];
    if '0' <= At(f, start) <= '9' {
      n, k := SkipAtoi(f, start);
    } else if At(f, start) == '*' {
      n := Signed(args[0].v);
      args := args[1..];
    }
  }

  predicate StarsFit(d: Directive, args: seq<Arg>)
  {
    d.stars <= |args| && forall i | 0 <= i < d.stars :: args[i].Word? && args[i].v < WORD_LIMIT
  }

  /** Flags, width, precision and qualifier of a directive, up to its conversion character. */
  method ReadSpec(f: string, args0: seq<Arg>)
    returns (flags: Flags, width: int, precision: int, args: seq<Arg>, k: nat)
    requires SmallNumbers(ReadDirective(f)) && StarsFit(ReadDirective(f), args0)
    ensures var d := ReadDirective(f);
            && k <= |f| && At(f, k) == d.conv && d.length == (if k < |f| then k + 1 else k)
            && args == args0[d.stars..]
            && (d.stars == 0 ==> flags == d.flags && width == d.width && precision == d.precision)
  {
    hide NumberAt, FlagRun, FlagsOf;
    flags, k := ReadFlags(f);
    width, k, args := ReadCount(f, k, args0);
    if width < 0 && |args| < |args0| {
      width := -width;
      flags := flags.(left := true);
    }
    precision := -1;
    if At(f, k) == '.' {
      precision, k, args := ReadCount(f, k + 1, args);
      if precision < 0 {
        precision := 0;
      }
    }
    if At(f, k) == 'h' || At(f, k) == 'l' || At(f, k) == 'L' {
      k := k + 1;
    }
  }

  /** The loops around a character count down before they compare. */
  method PadChar(str: string, width0: int) returns (out: string, width: int)
    ensures out == str + Rep(' ', width0 - 1)
    ensures width == if width0 > 1 then 0 else width0 - 1
  {
    out, width := str, width0 - 1;
    while width > 0
      invariant width == width0 - 1 || 0 <= width < width0 - 1
      invariant out + Rep(' ', width) == str + Rep(' ', width0 - 1)
      decreases width
    {
      assert Rep(' ', width) == [' '] + Rep(' ', width - 1);
      assert out + ([' '] + Rep(' ', width - 1)) == out + [' '] + Rep(' ', width - 1);
      out := out + [' '];
      width := width - 1;
    }
  }

  method PutChar(str: string, arg: nat, width0: int, flags: Flags) returns (out: string)
    ensures var c := [(arg % 256) as char];
            out == str + if flags.left then c + Rep(' ', width0 - 1) else Rep(' ', width0 - 1) + c
  {
    var width := width0;
    out := str;
    if !flags.left {
      out, width := PadChar(out, width);
    }
    out := out + [(arg % 256) as char];
    out, width := PadChar(out, width);
  }

  method PutString(str: string, s: string, width0: int, precision: int, flags: Flags) returns (out: string)
    ensures var len := if 0 <= precision < |s| then precision else |s|;
            out == str + if flags.left then s[..len] + Rep(' ', width0 - len) else Rep(' ', width0 - len) + s[..len]
  {
    var len, width := |s|, width0;
    if precision >= 0 && len > precision {
      len := precision;
    }
    out := str;
    if !flags.left {
      var left;
      out, left := Pad(out, ' ', width - len);
      width := left + len;
    }
    var i := 0;
    ghost var before := out;
    while i < len
      invariant 0 <= i <= len && out == before + s[..i]
    {
      assert s[..i + 1] == s[..i] + [s[i]];
      out := out + [s[i]];
      i := i + 1;
    }
    var left;
    out, left := Pad(out, ' ', width - len);
    NoPad(' ');
  }

  method PutNumber(str: string, args0: seq<Arg>, base: nat, width: int, precision: int, flags: Flags)
    returns (out: string, args: seq<Arg>)
    requires 2 <= base <= 36
    requires |args0| > 0 && args0[0].Word? && args0[0].v < WORD_LIMIT
    ensures out == str + Printed(Signed(args0[0].v), base, width, precision, flags) && args == args0[1..]
  {
    var ok;
    ok, out := PrintNumber(str, Signed(args0[0].v), base, width, precision, flags);
    args := args0[1..];
  }

  /** The switch over the conversion character. */
  method Convert(str: string, conv: char, flags0: Flags, width0: int, precision: int, args0: seq<Arg>,
                 ghost d: Directive, ghost all: seq<Arg>) returns (out: string, args: seq<Arg>)
    requires d.conv == conv && d.stars <= |all| && args0 == all[d.stars..] && Render(d, all).Out?
    requires d.stars == 0 ==> flags0 == d.flags && width0 == d.width && precision == d.precision
    requires d.stars > 0 ==> d.conv == '*'
    ensures out == str + Render(d, all).text && args == Render(d, all).rest
  {
    hide Printed, Signed, Rep;
    var flags, width := flags0, width0;
    out, args := str, args0;
    match conv {
      case 'c' =>
        out := PutChar(out, args[0].v, width, flags);
        args := args[1..];
      case 's' =>
        out := PutString(out, args[0].s, width, precision, flags);
        args := args[1..];
      case 'o' =>
        out, args := PutNumber(out, args, 8, width, precision, flags);
      case 'p' =>
        if width == -1 {
          width := 8;
          flags := flags.(zeropad := true);
        }
        out, args := PutNumber(out, args, 16, width, precision, flags);
      case 'x' =>
        flags := flags.(small := true);
        out, args := PutNumber(out, args, 16, width, precision, flags);
      case 'X' =>
        out, args := PutNumber(out, args, 16, width, precision, flags);
      case 'd' =>
        flags := flags.(sign := true);
        out, args := PutNumber(out, args, 10, width, precision, flags);
      case 'i' =>
        flags := flags.(sign := true);
        out, args := PutNumber(out, args, 10, width, precision, flags);
      case 'u' =>
        out, args := PutNumber(out, args, 10, width, precision, flags);
      case 'b' =>
        out, args := PutNumber(out, args, 2, width, precision, flags);
      case _ =>
        if conv != '%' {
          out := out + "%";
        }
        if conv != NUL {
          out := out + [conv];
        }
    }
  }

  lemma StarsConvert(f: string)
    ensures var d := ReadDirective(f);
            d.stars <= 1 && (d.stars > 0 ==> d.conv == '*')
  {
    hide NumberAt, FlagRun, FlagsOf;
  }

  /** The formatter writes what the format means, ends it with a zero and returns its length. */
  method Vsprintf(fmt: string, args0: seq<Arg>) returns (buf: string, len: nat)
    requires NoNul(fmt) && Denote(fmt, args0).Out?
    ensures buf == Denote(fmt, args0).text + [NUL] && len == |Denote(fmt, args0).text|
  {
    hide Render, ReadDirective, SmallNumbers, Denote;
    var str, i, args := "", 0, args0;
    assert fmt[0..] == fmt;
    while At(fmt, i) != NUL
      invariant i <= |fmt| && Denote(fmt[i..], args).Out?
      invariant str + Denote(fmt[i..], args).text == Denote(fmt, args0).text
      decreases |fmt| - i
    {
      ghost var f := fmt[i + 1..];
      assert fmt[i..][1..] == f && fmt[i..][0] == fmt[i];
      DenoteDefined(fmt[i..], args);
      if fmt[i] != '%' {
        assert str + ([fmt[i]] + Denote(f, args).text) == str + [fmt[i]] + Denote(f, args).text;
        str := str + [fmt[i]];
        i := i + 1;
      } else {
        ghost var d, before, all := ReadDirective(f), str, args;
        DenoteDirective(fmt[i..], args, d);
        StarsConvert(f);
        StarsFitRendered(d, args);
        var flags, width, precision, k;
        flags, width, precision, args, k := ReadSpec(fmt[i + 1..], args);
        str, args := Convert(str, At(fmt[i + 1..], k), flags, width, precision, args, d, all);
        assert fmt[i..][1 + d.length..] == fmt[i + 1 + d.length..];
        ghost var more := Denote(fmt[i + 1 + d.length..], args).text;
        assert before + (Render(d, all).text + more) == str + more;
        i := i + 1 + if k < |fmt[i + 1..]| then k + 1 else k;
      }
    }
    assert fmt[i..] == "";
    DenoteEmpty(args);
    assert str + "" == str;
    len := |str|;
    buf := str + [NUL];
  }

  lemma StarsFitRendered(d: Directive, args: seq<Arg>)
    requires d.stars <= 1 && (d.stars > 0 ==> d.conv == '*') && Render(d, args).Out?
    ensures StarsFit(d, args)
  {
  }
}
