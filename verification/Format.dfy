// The printf engine (kernel/src/sprintf.c): a character-by-character state
// machine, against a parse of the format followed by a rendering of the
// arguments.
module Format {
  import opened Words

  // A C string, without its terminating NUL.
  type CString = s: string | '\0' !in s

  // ------------------------------------------------------------------- parsing

  datatype Mode = Flags | Width | Precision | Long

  // The flags and lengths of one directive.
  datatype Spec = Spec(zero: bool, prefix: bool, hasMinimum: bool, minimum: int, hasMaximum: bool, maximum: int,
    long: bool)

  const PLAIN := Spec(false, false, false, 0, false, 0, false)

  // Between directives, or inside one.
  datatype Parser = Start | Directive(mode: Mode, spec: Spec)

  datatype Item = Literal(c: char) | Conversion(action: char, spec: Spec)

  // A C int.
  function Int32(x: int): int {
    (x + 0x8000_0000) % 0x1_0000_0000 - 0x8000_0000
  }

  predicate IsDigit(c: char) {
    '0' <= c <= '9'
  }

  // n *= 10; n += c - '0'
  function Append(n: int, c: char): int
    requires IsDigit(c)
  {
    Int32(Int32(n * 10) + (c - '0') as int)
  }

  predicate IsConversion(c: char) {
    c in ['c', 'd', 'p', 's', 'u', 'x']
  }

  // vsprintf_generic_checkAction. A '%' is emitted without leaving the directive,
  // and any other unknown character ends it and is dropped.
  function Act(mode: Mode, spec: Spec, c: char): (Parser, Option<Item>) {
    if c == '%' then (Directive(mode, spec), Some(Literal('%')))
    else if c == 'l' then (Directive(Long, spec.(long := true)), None)
    else if IsConversion(c) then (Start, Some(Conversion(c, spec)))
    else (Start, None)
  }

  function Next(p: Parser, c: char): (Parser, Option<Item>) {
    match p
    case Start => if c == '%' then (Directive(Flags, PLAIN), None) else (Start, Some(Literal(c)))
    case Directive(mode, spec) =>
      if mode == Flags && c == '0' then (Directive(Flags, spec.(zero := true)), None)
      else if mode == Flags && c == '#' then (Directive(Flags, spec.(prefix := true)), None)
      else if mode == Flags && IsDigit(c) then
        (Directive(Width, spec.(hasMinimum := true, minimum := (c - '0') as int)), None)
      else if mode == Width && IsDigit(c) then (Directive(Width, spec.(minimum := Append(spec.minimum, c))), None)
      else if (mode == Flags || mode == Width) && c == '.' then
        (Directive(Precision, spec.(hasMaximum := true, maximum := 0)), None)
      else if mode == Precision && IsDigit(c) then
        (Directive(Precision, spec.(maximum := Append(spec.maximum, c))), None)
      else Act(mode, spec, c)
  }

  function Prepend(item: Option<Item>, rest: seq<Item>): seq<Item> {
    match item
    case None => rest
    case Some(i) => Cons(i, rest)
  }

  function Cons(i: Item, rest: seq<Item>): (r: seq<Item>)
    ensures r != [] && r[0] == i && r[1..] == rest
  {
    [i] + rest
  }

  // What a format asks for, whatever the arguments.
  function Parse(p: Parser, format: string): seq<Item>
    decreases |format|
  {
    if format == [] then []
    else var (q, item) := Next(p, format[0]); Prepend(item, Parse(q, format[1..]))
  }

  // ----------------------------------------------------------------- rendering

  datatype Arg = Number(value: Word) | Text(text: CString)

  function DigitChar(d: int): char
    requires 0 <= d < 16
  {
    if d < 10 then '0' + d as char else 'a' + (d - 10) as char
  }

  // The digits of v, without leading zeros.
  function Digits(v: nat, base: int): (s: string)
    requires 2 <= base <= 16
    ensures s != []
    decreases v
  {
    (if v < base then [] else Digits(v / base, base)) + [DigitChar(v % base)]
  }

  // The argument as a signed long, or an int when the l modifier is missing.
  function Signed(v: Word, long: bool): int {
    if long then (if v < 0x8000_0000_0000_0000 then v else v - WORD_LIMIT) else Int32(v)
  }

  function Unsigned(v: Word, long: bool): nat {
    if long then v else v % 0x1_0000_0000
  }

  function Fill(c: char, n: int): (s: string)
    ensures |s| == if n < 0 then 0 else n
    ensures forall i :: 0 <= i < |s| ==> s[i] == c
  {
    if n <= 0 then [] else seq(n, i => c)
  }

  function Padded(filler: char, length: int, digits: string): string {
    Fill(filler, length - |digits|) + digits
  }

  // The minimum length, less the characters that precede the field.
  function Least(spec: Spec, taken: int): int {
    if taken == 0 then spec.minimum else Int32(spec.minimum - taken)
  }

  // Digits padded on the left up to the minimum length.
  function Field(spec: Spec, taken: int, digits: string): string {
    if spec.hasMinimum then Padded(if spec.zero then '0' else ' ', Least(spec, taken), digits) else digits
  }

  function Clipped(spec: Spec, text: string): string {
    if !spec.hasMaximum || |text| <= spec.maximum then text
    else if spec.maximum < 0 then []
    else text[..spec.maximum]
  }

  // The characters of one conversion: the sign or 0x always comes before the
  // padding.
  function Converted(action: char, spec: Spec, a: Arg): string
    requires Accepts(action, spec, a)
  {
    match action
    case 'c' => [(a.value % 256) as char]
    case 's' => Clipped(spec, a.text)
    case 'd' =>
      var v := Signed(a.value, spec.long);
      if v < 0 then "-" + Field(spec, 1, Digits(-v, 10)) else Field(spec, 0, Digits(v, 10))
    case 'u' => Field(spec, 0, Digits(Unsigned(a.value, spec.long), 10))
    case 'x' =>
      var digits := Digits(Unsigned(a.value, spec.long), 16);
      if spec.prefix then "0x" + Field(spec, 2, digits) else Field(spec, 0, digits)
    case _ => "0x" + Field(spec, 2, Digits(a.value, 16))
  }

  // The scratch buffer of a number conversion holds 32 characters.
  const SCRATCH: int := 32

  predicate FitsScratch(spec: Spec, taken: int) {
    spec.hasMinimum ==> Least(spec, taken) <= SCRATCH
  }

  // The argument has the type that the conversion reads, the field fits in the
  // scratch buffer, and a long is not the minimum one, which has no negation.
  predicate Accepts(action: char, spec: Spec, a: Arg) {
    match action
    case 'c' => a.Number?
    case 's' => a.Text?
    case 'd' =>
      && a.Number? && FitsScratch(spec, if Signed(a.value, spec.long) < 0 then 1 else 0)
      && (spec.long ==> a.value != 0x8000_0000_0000_0000)
    case 'u' => a.Number? && FitsScratch(spec, 0)
    case 'x' => a.Number? && FitsScratch(spec, if spec.prefix then 2 else 0)
    case 'p' => a.Number? && FitsScratch(spec, 2)
    case _ => false
  }

  predicate Matches(items: seq<Item>, args: seq<Arg>) {
    items == [] ||
    match items[0]
    case Literal(_) => Matches(items[1..], args)
    case Conversion(action, spec) => args != [] && Accepts(action, spec, args[0]) && Matches(items[1..], args[1..])
  }

  function Rendered(items: seq<Item>, args: seq<Arg>): string
    requires Matches(items, args)
  {
    if items == [] then []
    else match items[0]
      case Literal(c) => [c] + Rendered(items[1..], args)
      case Conversion(action, spec) => Converted(action, spec, args[0]) + Rendered(items[1..], args[1..])
  }

  // ------------------------------------------------------ reading numbers back

  function DigitValue(c: char): nat {
    if '0' <= c <= '9' then (c - '0') as nat else if 'a' <= c <= 'f' then (c - 'a') as nat + 10 else 0
  }

  function Value(s: string, base: nat): nat {
    if s == [] then 0 else Value(s[..|s| - 1], base) * base + DigitValue(s[|s| - 1])
  }

  predicate Numeral(c: char) {
    '0' <= c <= '9' || 'a' <= c <= 'f'
  }

  lemma {:induction false} DigitsReadBack(v: nat, base: int)
    requires 2 <= base <= 16
    ensures Value(Digits(v, base), base) == v
    ensures forall c :: c in Digits(v, base) ==> Numeral(c)
    ensures Digits(v, base)[0] == '0' <==> v == 0
    decreases v
  {
    hide Value, DigitValue, DigitChar, Numeral;
    var d := DigitChar(v % base);
    DigitIsNumeral(v % base);
    Divided(v, base);
    if v >= base {
      var t := Digits(v / base, base);
      DigitsReadBack(v / base, base);
      ValueOfMore(t, d, base);
    } else {
      assert [] + [d] == [d];
      ValueOfMore([], d, base);
      NoDigits(base);
    }
  }

  lemma NoDigits(base: nat)
    ensures Value([], base) == 0
  {
  }

  lemma Divided(v: nat, base: int)
    requires base >= 2
    ensures v == v / base * base + v % base
    ensures v >= base ==> 0 < v / base < v
    ensures v < base ==> v % base == v
  {
  }

  lemma DigitIsNumeral(d: int)
    requires 0 <= d < 16
    ensures DigitValue(DigitChar(d)) == d && Numeral(DigitChar(d))
    ensures DigitChar(d) == '0' <==> d == 0
  {
  }

  lemma ValueOfMore(t: string, c: char, base: nat)
    ensures Value(t + [c], base) == Value(t, base) * base + DigitValue(c)
  {
    assert (t + [c])[..|t|] == t;
  }

  function Power(base: nat, n: nat): nat {
    if n == 0 then 1 else base * Power(base, n - 1)
  }

  lemma {:induction false} DigitsLength(v: nat, base: int, n: nat)
    requires 2 <= base <= 16 && n > 0 && v < Power(base, n)
    ensures |Digits(v, base)| <= n
    decreases n
  {
    assert Power(base, 1) == base;
    if v >= base && n > 1 {
      QuotientBelow(v, base, Power(base, n - 1));
      DigitsLength(v / base, base, n - 1);
    }
  }

  lemma QuotientBelow(v: nat, base: int, p: nat)
    requires base > 0 && v < base * p
    ensures v / base < p
  {
    assert base * (v / base) <= v;
    if v / base >= p {
      Product(base, v / base - p);
    }
  }

  lemma Product(a: nat, b: nat)
    ensures a * b >= 0
  {
  }

  lemma WordDigits(v: Word)
    ensures |Digits(v, 10)| <= 20 && |Digits(v, 16)| <= 16
  {
    assert Power(10, 5) == 100000;
    assert Power(10, 10) == 10000000000;
    assert Power(10, 15) == 1000000000000000;
    assert Power(10, 20) == 100000000000000000000;
    DigitsLength(v, 10, 20);
    assert Power(16, 5) == 0x10_0000;
    assert Power(16, 10) == 0x100_0000_0000;
    assert Power(16, 15) == 0x1000_0000_0000_0000;
    assert Power(16, 16) == WORD_LIMIT;
    DigitsLength(v, 16, 16);
  }

  function DropSpaces(s: string): string {
    if s != [] && s[0] == ' ' then DropSpaces(s[1..]) else s
  }

  lemma {:induction false} SpacesDropped(n: int, digits: string)
    requires digits != [] && digits[0] != ' '
    ensures DropSpaces(Fill(' ', n) + digits) == digits
    decreases n
  {
    if n > 0 {
      SpacesDropped(n - 1, digits);
      assert (Fill(' ', n) + digits)[1..] == Fill(' ', n - 1) + digits;
    } else {
      assert Fill(' ', n) + digits == digits;
    }
  }

  lemma {:induction false} ZerosAddNothing(n: int, digits: string, base: nat)
    ensures Value(Fill('0', n) + digits, base) == Value(digits, base)
    decreases |digits|, n
  {
    var s := Fill('0', n) + digits;
    if digits != [] {
      ZerosAddNothing(n, digits[..|digits| - 1], base);
      assert s[..|s| - 1] == Fill('0', n) + digits[..|digits| - 1];
    } else if n > 0 {
      ZerosAddNothing(n - 1, digits, base);
      assert s[..|s| - 1] == Fill('0', n - 1) + digits;
    }
  }

  lemma NumeralIsVisible(c: char)
    requires Numeral(c)
    ensures c != ' ' && c != '-'
  {
  }

  lemma NothingDropped(s: string)
    requires s != [] && s[0] != ' '
    ensures DropSpaces(s) == s
  {
  }

  // A field is as long as the longer of its digits and the adjusted minimum, and
  // reads back as its number.
  lemma FieldReadsBack(spec: Spec, taken: int, v: nat, base: int)
    requires 2 <= base <= 16
    ensures var field, digits := Field(spec, taken, Digits(v, base)), Digits(v, base);
            && Value(DropSpaces(field), base) == v
            && field != [] && field[0] != '-'
            && |field| == if spec.hasMinimum && Least(spec, taken) > |digits| then Least(spec, taken) else |digits|
  {
    hide Value, Digits, DropSpaces, Int32, Least, DigitValue, Numeral;
    var digits := Digits(v, base);
    DigitsReadBack(v, base);
    assert digits[0] in digits;
    NumeralIsVisible(digits[0]);
    if !spec.hasMinimum {
      NothingDropped(digits);
    } else {
      var n := Least(spec, taken) - |digits|;
      if spec.zero {
        NothingDropped(Fill('0', n) + digits);
        ZerosAddNothing(n, digits, base);
      } else {
        SpacesDropped(n, digits);
      }
    }
  }

  // Only the minimum length can make a field outgrow the scratch buffer.
  lemma FieldFitsScratch(spec: Spec, taken: int, v: Word, base: int)
    requires base == 10 || base == 16
    ensures |Field(spec, taken, Digits(v, base))| <= 32 <==> FitsScratch(spec, taken)
  {
    WordDigits(v);
    FieldReadsBack(spec, taken, v, base);
  }

  function ReadBack(action: char, spec: Spec, text: string): int {
    if action == 'd' && text != [] && text[0] == '-' then -(Value(DropSpaces(text[1..]), 10) as int)
    else if action == 'd' || action == 'u' then Value(DropSpaces(text), 10)
    else if (action == 'p' || spec.prefix) && |text| >= 2 then Value(DropSpaces(text[2..]), 16)
    else Value(DropSpaces(text), 16)
  }

  // A conversion reads 64 bits with the l modifier, and for pointers; otherwise 32.
  function Modulus(action: char, spec: Spec): int {
    if spec.long || action == 'p' then 0x1_0000_0000_0000_0000 else 0x1_0000_0000
  }

  // n is the number that those bits of v stand for.
  predicate StandsFor(action: char, spec: Spec, v: Word, n: int) {
    var m := Modulus(action, spec);
    && (n - v) % m == 0
    && if action == 'd' then -m / 2 <= n < m / 2 else 0 <= n < m
  }

  lemma Int32IsCongruent(x: int)
    ensures -0x8000_0000 <= Int32(x) < 0x8000_0000 && (Int32(x) - x) % 0x1_0000_0000 == 0
  {
    assert Int32(x) - x == -0x1_0000_0000 * ((x + 0x8000_0000) / 0x1_0000_0000);
  }

  // What the conversion takes the argument for.
  function Meant(action: char, spec: Spec, v: Word): int {
    if action == 'd' then Signed(v, spec.long) else if action == 'p' then v else Unsigned(v, spec.long)
  }

  lemma WholeArgument(action: char, spec: Spec, v: Word)
    requires action == 'p' || spec.long
    ensures StandsFor(action, spec, v, Meant(action, spec, v))
  {
  }

  lemma LowHalf(action: char, spec: Spec, v: Word)
    requires action != 'p' && !spec.long
    ensures StandsFor(action, spec, v, Meant(action, spec, v))
  {
    hide Int32;
    Int32IsCongruent(v);
    assert v % 0x1_0000_0000 - v == -0x1_0000_0000 * (v / 0x1_0000_0000);
  }

  lemma MeantStands(action: char, spec: Spec, v: Word)
    ensures StandsFor(action, spec, v, Meant(action, spec, v))
  {
    hide StandsFor, Meant;
    if action == 'p' || spec.long {
      WholeArgument(action, spec, v);
    } else {
      LowHalf(action, spec, v);
    }
  }

  // Reading a printed number gives the argument back: with the l modifier, and for
  // pointers, all of it; otherwise what its low 32 bits stand for.
  lemma NumberReadsBack(action: char, spec: Spec, a: Arg)
    requires (action == 'd' || action == 'u' || action == 'x' || action == 'p') && Accepts(action, spec, a)
    ensures StandsFor(action, spec, a.value, ReadBack(action, spec, Converted(action, spec, a)))
  {
    hide StandsFor, Meant, ReadBack, Converted;
    MeantStands(action, spec, a.value);
    ConvertedReadsBack(action, spec, a);
  }

  lemma ConvertedReadsBack(action: char, spec: Spec, a: Arg)
    requires (action == 'd' || action == 'u' || action == 'x' || action == 'p') && Accepts(action, spec, a)
    ensures ReadBack(action, spec, Converted(action, spec, a)) == Meant(action, spec, a.value)
  {
    var text := Converted(action, spec, a);
    if action == 'd' {
      var v := Signed(a.value, spec.long);
      FieldReadsBack(spec, 1, if v < 0 then -v else 0, 10);
      FieldReadsBack(spec, 0, if v < 0 then 0 else v, 10);
      assert v < 0 ==> text[1..] == Field(spec, 1, Digits(-v, 10));
    } else {
      var v := if action == 'p' then a.value else Unsigned(a.value, spec.long);
      FieldReadsBack(spec, 0, v, if action == 'u' then 10 else 16);
      FieldReadsBack(spec, 2, v, 16);
      assert action == 'p' || (action == 'x' && spec.prefix) ==> text[2..] == Field(spec, 2, Digits(v, 16));
    }
  }

  // ------------------------------------------- the characters of a conversion

  // Digits of the base, without a leading zero.
  ghost predicate IsNumeral(s: string, base: int) {
    && s != [] && (s[0] == '0' ==> |s| == 1)
    && forall c :: c in s ==> '0' <= c <= '9' || (base == 16 && 'a' <= c <= 'f')
  }

  lemma {:induction false} DigitsAreNumeral(v: nat, base: int)
    requires base == 10 || base == 16
    ensures IsNumeral(Digits(v, base), base)
    decreases v
  {
    DigitsReadBack(v, base);
    Divided(v, base);
    if v >= base {
      DigitsAreNumeral(v / base, base);
    }
  }

  // The low bits of v that a d conversion reads have their sign bit set.
  predicate IsNegative(action: char, spec: Spec, v: Word) {
    var m := Modulus(action, spec);
    action == 'd' && v % m >= m / 2
  }

  // What comes before padding and digits.
  function Head(action: char, spec: Spec, v: Word): string {
    if IsNegative(action, spec, v) then "-"
    else if action == 'p' || (action == 'x' && spec.prefix) then "0x"
    else ""
  }

  // Every number conversion prints its head, then fillers, '0' under the zero flag
  // and spaces otherwise, up to the minimum length, then the digits of what the
  // argument stands for. The minimum may be up to 32 more than the head; the least
  // long has no negation.
  lemma NumberIsPrinted(action: char, spec: Spec, v: Word) returns (pad: string, digits: string)
    requires action == 'd' || action == 'u' || action == 'x' || action == 'p'
    requires spec.hasMinimum ==> -0x7fff_fffe <= spec.minimum <= 32 + |Head(action, spec, v)|
    requires !(action == 'd' && spec.long && v == 0x8000_0000_0000_0000)
    ensures Accepts(action, spec, Number(v))
    ensures Converted(action, spec, Number(v)) == Head(action, spec, v) + pad + digits
    ensures forall c :: c in pad ==> c == if spec.zero then '0' else ' '
    ensures IsNumeral(digits, Base(action))
    ensures var n: int := Value(digits, Base(action));
            StandsFor(action, spec, v, if IsNegative(action, spec, v) then -n else n)
    ensures var least := |Head(action, spec, v)| + |digits|;
            |pad| == if spec.hasMinimum && spec.minimum > least then spec.minimum - least else 0
  {
    hide Digits, Value, IsNumeral, StandsFor, Field;
    var n, head := Meant(action, spec, v), Head(action, spec, v);
    var size := if n < 0 then -n else n;
    MeantStands(action, spec, v);
    SignOf(action, spec, v);
    digits := Digits(size, Base(action));
    DigitsAreNumeral(size, Base(action));
    DigitsReadBack(size, Base(action));
    NoWrap(spec, |head|);
    pad := FieldParts(spec, |head|, digits);
    ConvertedParts(action, spec, v);
  }

  function Base(action: char): int {
    if action == 'd' || action == 'u' then 10 else 16
  }

  lemma SignOf(action: char, spec: Spec, v: Word)
    ensures Meant(action, spec, v) < 0 <==> IsNegative(action, spec, v)
  {
  }

  lemma ConvertedParts(action: char, spec: Spec, v: Word)
    requires action == 'd' || action == 'u' || action == 'x' || action == 'p'
    requires spec.hasMinimum ==> Least(spec, |Head(action, spec, v)|) <= 32
    requires !(action == 'd' && spec.long && v == 0x8000_0000_0000_0000)
    ensures Accepts(action, spec, Number(v))
    ensures var n, head := Meant(action, spec, v), Head(action, spec, v);
            Converted(action, spec, Number(v)) ==
            head + Field(spec, |head|, Digits(if n < 0 then -n else n, Base(action)))
  {
    hide Digits, Field, Signed, Unsigned, IsNegative;
    SignOf(action, spec, v);
    NothingBefore(Converted(action, spec, Number(v)));
  }

  lemma NothingBefore(s: string)
    ensures "" + s == s
  {
  }

  lemma NoWrap(spec: Spec, taken: int)
    requires 0 <= taken <= 2 && (spec.hasMinimum ==> -0x7fff_fffe <= spec.minimum <= 34)
    ensures spec.hasMinimum ==> Least(spec, taken) == spec.minimum - taken
  {
  }

  lemma FieldParts(spec: Spec, taken: int, digits: string) returns (pad: string)
    requires spec.hasMinimum ==> Least(spec, taken) == spec.minimum - taken
    ensures Field(spec, taken, digits) == pad + digits
    ensures forall c :: c in pad ==> c == if spec.zero then '0' else ' '
    ensures |pad| == if spec.hasMinimum && spec.minimum > taken + |digits| then spec.minimum - taken - |digits| else 0
  {
    hide Least;
    pad := if spec.hasMinimum then Fill(if spec.zero then '0' else ' ', spec.minimum - taken - |digits|) else [];
    NothingBefore(digits);
  }

  // A string is printed up to its precision, a character as the low byte.
  lemma TextIsClipped(spec: Spec, text: CString)
    ensures Accepts('s', spec, Text(text))
    ensures var out := Converted('s', spec, Text(text));
            && out <= text
            && |out| == if !spec.hasMaximum || |text| <= spec.maximum then |text|
                        else if spec.maximum >= 0 then spec.maximum else 0
  {
  }

  lemma CharacterIsLowByte(spec: Spec, v: Word)
    ensures Accepts('c', spec, Number(v))
    ensures var out := Converted('c', spec, Number(v));
            |out| == 1 && (out[0] as int) < 256 && (v - out[0] as int) % 256 == 0
  {
    assert v - v % 256 == v / 256 * 256;
  }

  // A format without a percent sign prints itself, whatever the arguments.
  lemma {:induction false} PlainFormat(format: string, args: seq<Arg>)
    requires '%' !in format
    ensures Matches(Parse(Start, format), args) && Rendered(Parse(Start, format), args) == format
    decreases |format|
  {
    if format != [] {
      PlainFormat(format[1..], args);
      assert Parse(Start, format) == Cons(Literal(format[0]), Parse(Start, format[1..]));
      assert format == [format[0]] + format[1..];
    }
  }

  // Inside a directive, a character that is no modifier, conversion or percent
  // sign ends the directive, and both are dropped, unless it is a digit that is
  // not behind the modifier, a point that is not behind one or behind the
  // modifier, or a number sign among the flags.
  lemma UnknownIsDropped(mode: Mode, spec: Spec, c: char, rest: string)
    requires c != 'c' && c != 'd' && c != 'p' && c != 's' && c != 'u' && c != 'x' && c != '%' && c != 'l'
    requires '0' <= c <= '9' ==> mode.Long?
    requires c == '.' ==> mode.Precision? || mode.Long?
    requires c == '#' ==> !mode.Flags?
    ensures Parse(Directive(mode, spec), [c] + rest) == Parse(Start, rest)
  {
    assert ([c] + rest)[0] == c && ([c] + rest)[1..] == rest;
  }

  function Conversions(items: seq<Item>): seq<Item> {
    if items == [] then [] else (if items[0].Conversion? then [items[0]] else []) + Conversions(items[1..])
  }

  lemma {:induction false} ConversionsOnly(items: seq<Item>)
    ensures forall i :: i in Conversions(items) ==> i.Conversion?
  {
    if items != [] {
      ConversionsOnly(items[1..]);
    }
  }

  // Arguments match a format exactly when there is one for each conversion, in
  // order, that the conversion accepts.
  lemma {:induction false} MatchesInOrder(items: seq<Item>, args: seq<Arg>)
    ensures var all := Conversions(items);
            Matches(items, args) <==>
              |all| <= |args| &&
              forall k :: 0 <= k < |all| ==> all[k].Conversion? && Accepts(all[k].action, all[k].spec, args[k])
  {
    hide Accepts;
    if items != [] {
      var all, rest := Conversions(items), Conversions(items[1..]);
      ConversionsOnly(items[1..]);
      if items[0].Literal? {
        MatchesInOrder(items[1..], args);
        assert all == rest;
      } else if args != [] {
        MatchesInOrder(items[1..], args[1..]);
        assert all[0] == items[0] && all[1..] == rest;
        assert forall k :: 0 <= k < |rest| ==> all[k + 1] == rest[k];
        assert forall k :: 0 <= k < |args| - 1 ==> args[k + 1] == args[1..][k];
      }
    }
  }

  // ------------------------------------------------------- writing a format

  // The directive a programmer would write: flags, minimum length, precision,
  // length modifier, conversion.
  function WrittenItem(item: Item): string {
    match item
    case Literal(c) => [c]
    case Conversion(action, spec) =>
      FlagText(spec) + MinimumText(spec) + MaximumText(spec) + (if spec.long then "l" else "") + [action]
  }

  function Written(items: seq<Item>): string {
    if items == [] then [] else WrittenItem(items[0]) + Written(items[1..])
  }

  predicate Writable(item: Item) {
    match item
    case Literal(c) => c != '%'
    case Conversion(action, spec) =>
      && (action == 'c' || action == 'd' || action == 'p' || action == 's' || action == 'u' || action == 'x')
      && (if spec.hasMinimum then 0 < spec.minimum < 0x8000_0000 else spec.minimum == 0)
      && (if spec.hasMaximum then 0 <= spec.maximum < 0x8000_0000 else spec.maximum == 0)
  }

  // Characters that only bring the parser from p to q.
  ghost predicate Advances(p: Parser, s: string, q: Parser)
    decreases |s|
  {
    if s == [] then p == q
    else Next(p, s[0]).1.None? && Advances(Next(p, s[0]).0, s[1..], q)
  }

  lemma {:induction false} AdvancesParse(p: Parser, s: string, q: Parser, rest: string)
    requires Advances(p, s, q)
    ensures Parse(p, s + rest) == Parse(q, rest)
    decreases |s|
  {
    if s == [] {
      assert s + rest == rest;
    } else {
      AdvancesParse(Next(p, s[0]).0, s[1..], q, rest);
      assert (s + rest)[0] == s[0] && (s + rest)[1..] == s[1..] + rest;
    }
  }

  lemma {:induction false} AdvancesTwice(p: Parser, s: string, q: Parser, t: string, r: Parser)
    requires Advances(p, s, q) && Advances(q, t, r)
    ensures Advances(p, s + t, r)
    decreases |s|
  {
    if s == [] {
      assert s + t == t;
    } else {
      AdvancesTwice(Next(p, s[0]).0, s[1..], q, t, r);
      assert (s + t)[0] == s[0] && (s + t)[1..] == s[1..] + t;
    }
  }

  lemma AdvancesOne(p: Parser, c: char, q: Parser)
    requires Next(p, c) == (q, None)
    ensures Advances(p, [c], q)
  {
    assert [c][1..] == [];
    assert Advances(q, [], q);
  }

  // Reading one more digit.
  lemma DigitAppends(n: nat)
    requires n < 0x8000_0000
    ensures IsDigit(DigitChar(n % 10)) && Append(n / 10, DigitChar(n % 10)) == n
  {
    assert n == n / 10 * 10 + n % 10;
  }

  // The decimal digits of a length lead the parser to that length.
  lemma {:induction false} MinimumParsed(spec: Spec, n: nat)
    requires 0 < n < 0x8000_0000
    ensures Advances(Directive(Flags, spec), Digits(n, 10), Directive(Width, spec.(hasMinimum := true, minimum := n)))
    decreases n
  {
    hide Append, Advances;
    var c := DigitChar(n % 10);
    var after := Directive(Width, spec.(hasMinimum := true, minimum := n));
    DigitIsNumeral(n % 10);
    if n < 10 {
      assert Digits(n, 10) == [c];
      AdvancesOne(Directive(Flags, spec), c, after);
    } else {
      DigitAppends(n);
      MinimumParsed(spec, n / 10);
      var before := Directive(Width, spec.(hasMinimum := true, minimum := n / 10));
      assert Next(before, c) == (after, None);
      AdvancesOne(before, c, after);
      AdvancesTwice(Directive(Flags, spec), Digits(n / 10, 10), before, [c], after);
    }
  }

  lemma {:induction false} MaximumParsed(spec: Spec, n: nat)
    requires n < 0x8000_0000 && spec.maximum == 0
    ensures Advances(Directive(Precision, spec), Digits(n, 10), Directive(Precision, spec.(maximum := n)))
    decreases n
  {
    hide Append, Advances;
    var c := DigitChar(n % 10);
    var after := Directive(Precision, spec.(maximum := n));
    DigitAppends(n);
    if n < 10 {
      assert Digits(n, 10) == [c];
      AdvancesOne(Directive(Precision, spec), c, after);
    } else {
      MaximumParsed(spec, n / 10);
      var before := Directive(Precision, spec.(maximum := n / 10));
      assert Next(before, c) == (after, None);
      AdvancesOne(before, c, after);
      AdvancesTwice(Directive(Precision, spec), Digits(n / 10, 10), before, [c], after);
    }
  }

  lemma Stays(p: Parser)
    ensures Advances(p, "", p)
  {
  }

  function FlagText(spec: Spec): string {
    "%" + (if spec.zero then "0" else "") + (if spec.prefix then "#" else "")
  }

  function MinimumText(spec: Spec): string {
    if spec.hasMinimum then Digits(if spec.minimum < 0 then 0 else spec.minimum, 10) else ""
  }

  function MaximumText(spec: Spec): string {
    if spec.hasMaximum then "." + Digits(if spec.maximum < 0 then 0 else spec.maximum, 10) else ""
  }

  lemma FlagsParsed(spec: Spec)
    ensures Advances(Start, FlagText(spec), Directive(Flags, PLAIN.(zero := spec.zero, prefix := spec.prefix)))
  {
    var p0, p1 := Directive(Flags, PLAIN), Directive(Flags, PLAIN.(zero := spec.zero));
    var p2 := Directive(Flags, PLAIN.(zero := spec.zero, prefix := spec.prefix));
    var zero, prefix := if spec.zero then "0" else "", if spec.prefix then "#" else "";
    AdvancesOne(Start, '%', p0);
    if spec.zero {
      AdvancesOne(p0, '0', p1);
    }
    if spec.prefix {
      AdvancesOne(p1, '#', p2);
    }
    AdvancesTwice(Start, "%", p0, zero, p1);
    AdvancesTwice(Start, "%" + zero, p1, prefix, p2);
  }

  // The parser after the minimum length, if there is one.
  function AfterMinimum(spec: Spec): Parser {
    Directive(if spec.hasMinimum then Width else Flags, spec.(hasMaximum := false, maximum := 0, long := false))
  }

  function AfterMaximum(spec: Spec): Parser {
    Directive(if spec.hasMaximum then Precision else AfterMinimum(spec).mode, spec.(long := false))
  }

  lemma LengthsParsed(action: char, spec: Spec)
    requires Writable(Conversion(action, spec))
    ensures Advances(Start, FlagText(spec) + MinimumText(spec) + MaximumText(spec), AfterMaximum(spec))
  {
    var flags := PLAIN.(zero := spec.zero, prefix := spec.prefix);
    FlagsParsed(spec);
    if spec.hasMinimum {
      MinimumParsed(flags, spec.minimum);
    }
    AdvancesTwice(Start, FlagText(spec), Directive(Flags, flags), MinimumText(spec), AfterMinimum(spec));
    PrecisionParsed(action, spec);
    AdvancesTwice(Start, FlagText(spec) + MinimumText(spec), AfterMinimum(spec), MaximumText(spec), AfterMaximum(spec));
  }

  lemma PrecisionParsed(action: char, spec: Spec)
    requires Writable(Conversion(action, spec))
    ensures Advances(AfterMinimum(spec), MaximumText(spec), AfterMaximum(spec))
  {
    if spec.hasMaximum {
      var point := spec.(maximum := 0, long := false);
      AdvancesOne(AfterMinimum(spec), '.', Directive(Precision, point));
      MaximumParsed(point, spec.maximum);
      AdvancesTwice(AfterMinimum(spec), ".", Directive(Precision, point), Digits(spec.maximum, 10), AfterMaximum(spec));
    }
  }

  // The parser right before the conversion character.
  function AtConversion(spec: Spec): Parser {
    if spec.long then Directive(Long, spec) else AfterMaximum(spec)
  }

  lemma DirectiveParsed(action: char, spec: Spec)
    requires Writable(Conversion(action, spec))
    ensures Advances(Start, FlagText(spec) + MinimumText(spec) + MaximumText(spec) + (if spec.long then "l" else ""),
                     AtConversion(spec))
    ensures Next(AtConversion(spec), action) == (Start, Some(Conversion(action, spec)))
  {
    hide Advances, FlagText, MinimumText, MaximumText;
    LengthsParsed(action, spec);
    if spec.long {
      AdvancesOne(AfterMaximum(spec), 'l', AtConversion(spec));
    } else {
      Stays(AfterMaximum(spec));
    }
    AdvancesTwice(Start, FlagText(spec) + MinimumText(spec) + MaximumText(spec), AfterMaximum(spec),
                  if spec.long then "l" else "", AtConversion(spec));
  }

  lemma ItemParsed(item: Item, rest: string)
    requires Writable(item)
    ensures Parse(Start, WrittenItem(item) + rest) == Cons(item, Parse(Start, rest))
  {
    match item
    case Literal(c) =>
      assert ([c] + rest)[1..] == rest;
    case Conversion(action, spec) =>
      hide Advances, FlagText, MinimumText, MaximumText, AtConversion, Next;
      var lengths := FlagText(spec) + MinimumText(spec) + MaximumText(spec) + (if spec.long then "l" else "");
      DirectiveParsed(action, spec);
      AdvancesParse(Start, lengths, AtConversion(spec), [action] + rest);
      assert ([action] + rest)[1..] == rest;
      assert lengths + ([action] + rest) == WrittenItem(item) + rest;
  }

  // The parser inverts the writing of formats: any sequence of literals other
  // than '%' and of directives is what its format means.
  lemma {:induction false} ParseInvertsWriting(items: seq<Item>)
    requires forall i :: i in items ==> Writable(i)
    ensures Parse(Start, Written(items)) == items
  {
    if items != [] {
      ParseInvertsWriting(items[1..]);
      ItemParsed(items[0], Written(items[1..]));
      assert items == Cons(items[0], items[1..]);
    }
  }

  // ------------------------------------------------------------ the '%' action

  // Inside a directive, either the next item is a '%' or a conversion, or the
  // characters passed over would have been literals.
  lemma {:induction false} DirectiveSwallows(mode: Mode, spec: Spec, s: string)
    ensures var items := Parse(Directive(mode, spec), s);
            items == [] || items[0] == Literal('%') || items[0].Conversion? || |Parse(Start, s)| > |items|
    decreases |s|
  {
    if s != [] && s[0] != '%' {
      assert Parse(Start, s) == Cons(Literal(s[0]), Parse(Start, s[1..]));
      var (q, item) := Next(Directive(mode, spec), s[0]);
      if item.None? && q.Directive? {
        DirectiveSwallows(q.mode, q.spec, s[1..]);
      }
    }
  }

  // Because the '%' action stays in the directive, "%%" is a literal percent sign
  // followed by the rest of the format exactly when there is no rest.
  lemma PercentNeedsTheEnd(rest: string)
    ensures Parse(Start, "%%" + rest) == Cons(Literal('%'), Parse(Start, rest)) <==> rest == ""
  {
    var f := "%%" + rest;
    assert f[1..][0] == '%' && f[1..][1..] == rest;
    assert Parse(Start, f) == Cons(Literal('%'), Parse(Directive(Flags, PLAIN), rest));
    if rest != [] {
      var c, t := rest[0], rest[1..];
      var (q, item) := Next(Directive(Flags, PLAIN), c);
      if c == '%' {
        assert Parse(Directive(Flags, PLAIN), rest) == Cons(Literal('%'), Parse(Start, rest));
      } else {
        assert Parse(Start, rest) == Cons(Literal(c), Parse(Start, t));
        if q.Directive? {
          DirectiveSwallows(q.mode, q.spec, t);
        }
      }
    }
  }

  // ------------------------------------------------ one parser step, rendered

  predicate ItemMatches(item: Option<Item>, args: seq<Arg>) {
    item.Some? && item.value.Conversion? ==> args != [] && Accepts(item.value.action, item.value.spec, args[0])
  }

  function ItemText(item: Option<Item>, args: seq<Arg>): string
    requires ItemMatches(item, args)
  {
    match item
    case None => []
    case Some(Literal(c)) => [c]
    case Some(Conversion(action, spec)) => Converted(action, spec, args[0])
  }

  function ArgsLeft(item: Option<Item>, args: seq<Arg>): seq<Arg>
    requires ItemMatches(item, args)
  {
    if item.Some? && item.value.Conversion? then args[1..] else args
  }

  lemma RenderStep(p: Parser, format: string, args: seq<Arg>)
    requires format != [] && Matches(Parse(p, format), args)
    ensures var (q, item) := Next(p, format[0]);
            && ItemMatches(item, args)
            && Matches(Parse(q, format[1..]), ArgsLeft(item, args))
            && Rendered(Parse(p, format), args) ==
               ItemText(item, args) + Rendered(Parse(q, format[1..]), ArgsLeft(item, args))
  {
    hide Next, Converted, Accepts;
    var (q, item) := Next(p, format[0]);
    if item.None? {
      assert [] + Rendered(Parse(q, format[1..]), args) == Rendered(Parse(p, format), args);
    }
  }

  // ------------------------------------------------------------------ the engine

  datatype State = START | ESCAPE | MINLEN | MAXLEN | ACTION_L

  // struct ts_vsprintf_context, with the variable arguments that are left.
  class Context {
    const buffer: array<char>
    const sizeLimit: Word
    const sizeLimitEnabled: bool
    var index: int
    var flagPrefix: bool
    var flagPadZero: bool
    var flagMinimumLength: bool
    var flagMaximumLength: bool
    var flagLong: bool
    var minimumLength: int
    var maximumLength: int
    var state: State
    var args: seq<Arg>
    ghost var text: string       // all characters put out so far, stored or not
    ghost const before: string   // what the buffer held at first

    constructor (buffer: array<char>, sizeLimit: Word, sizeLimitEnabled: bool, args: seq<Arg>)
      ensures this.buffer == buffer && this.sizeLimit == sizeLimit && this.sizeLimitEnabled == sizeLimitEnabled
      ensures this.args == args && text == "" && before == buffer[..]
      ensures Valid() && Now() == Start
    {
      this.buffer := buffer;
      this.sizeLimit := sizeLimit;
      this.sizeLimitEnabled := sizeLimitEnabled;
      this.args := args;
      index := 0;
      flagPrefix, flagPadZero, flagMinimumLength, flagMaximumLength, flagLong := false, false, false, false, false;
      minimumLength, maximumLength := 0, 0;
      state := START;
      text := "";
      before := buffer[..];
    }

    // How many of n characters are stored.
    function Stored(n: nat): nat {
      if sizeLimitEnabled && sizeLimit < n then sizeLimit else n
    }

    // The buffer takes n more characters and the terminating NUL.
    ghost predicate Room(n: nat)
      reads this
    {
      Stored(|text| + n) < buffer.Length
    }

    ghost predicate Valid()
      reads this, buffer
    {
      && index == Stored(|text|) <= buffer.Length == |before|
      && buffer[..index] == text[..index]
      && buffer[index..] == before[index..]
    }

    ghost function Now(): Parser
      reads this
    {
      match state
      case START => Start
      case ESCAPE => Directive(Flags, Current())
      case MINLEN => Directive(Width, Current())
      case MAXLEN => Directive(Precision, Current())
      case ACTION_L => Directive(Long, Current())
    }

    ghost function Current(): Spec
      reads this
    {
      Spec(flagPadZero, flagPrefix, flagMinimumLength, minimumLength, flagMaximumLength, maximumLength, flagLong)
    }

    // vsprintf_generic_out
    method Out(c: char)
      requires Valid() && Room(1)
      modifies this`index, this`text, buffer
      ensures Valid() && text == old(text) + [c]
    {
      if !sizeLimitEnabled || index < sizeLimit {
        buffer[index] := c;
        index := index + 1;
      }
      text := text + [c];
    }

    // The last digit of what is left of the value, and the rest.
    static method NextDigit(v: nat, base: int) returns (digit: char, rest: nat)
      requires 2 <= base <= 16
      ensures Digits(v, base) == (if rest != 0 then Digits(rest, base) else []) + [digit]
      ensures rest != 0 ==> rest < v
    {
      DigitsStep(v, base);
      digit := DigitChar(v % base);
      rest := v / base;
    }

    // The digit loops of a number conversion, from the low digit down the buffer.
    static method WriteDigits(scratch: array<char>, value: Word, base: int) returns (i: int)
      requires scratch.Length == SCRATCH && (base == 10 || base == 16)
      modifies scratch
      ensures 0 <= i <= SCRATCH && scratch[i..] == Digits(value, base)
    {
      hide Digits;
      i := SCRATCH;
      var rest: nat, more := value, true;
      WordDigits(value);
      assert scratch[i..] == [];
      while more
        invariant 0 <= i <= SCRATCH && (more ==> rest != 0 || i == SCRATCH)
        invariant Digits(value, base) == (if more then Digits(rest, base) else []) + scratch[i..]
        decreases more, rest
      {
        var digit;
        digit, rest := NextDigit(rest, base);
        i := i - 1;
        scratch[i] := digit;
        assert scratch[i..] == [scratch[i]] + scratch[i + 1..];
        more := rest != 0;
      }
    }

    // The padding loops of a number conversion.
    static method PadScratch(scratch: array<char>, filler: char, least: int, ghost digits: string, start: int)
      returns (i: int)
      requires scratch.Length == SCRATCH && least <= SCRATCH && 0 <= start <= SCRATCH && scratch[start..] == digits
      modifies scratch
      ensures 0 <= i <= SCRATCH && scratch[i..] == Padded(filler, least, digits)
    {
      hide Fill;
      i := start;
      var length := SCRATCH - start;
      while length < least
        invariant 0 <= i <= start && length == SCRATCH - i
        invariant length <= least || i == start
        invariant scratch[i..] == Fill(filler, length - |digits|) + digits
      {
        i := i - 1;
        scratch[i] := filler;
        length := length + 1;
        OneMore(filler, length - |digits|, digits);
        assert scratch[i..] == [filler] + scratch[i + 1..];
      }
    }

    // The output loop of a number conversion.
    method PutScratch(scratch: array<char>, start: int)
      requires scratch != buffer && scratch.Length == SCRATCH && 0 <= start <= SCRATCH
      requires Valid() && Room(SCRATCH - start)
      modifies this`index, this`text, buffer
      ensures Valid() && text == old(text) + scratch[start..]
    {
      var i, length := start, SCRATCH - start;
      while length > 0
        invariant start <= i && i + length == SCRATCH && 0 <= length
        invariant Valid() && text == old(text) + scratch[start..i]
      {
        Out(scratch[i]);
        i := i + 1;
        length := length - 1;
        assert scratch[start..i] == scratch[start..i - 1] + [scratch[i - 1]];
      }
    }

    // The digits, padding and output that the d, p, u and x conversions share.
    method PutNumber(value: Word, base: int)
      requires (base == 10 || base == 16) && Valid()
      requires flagMinimumLength ==> minimumLength <= SCRATCH
      requires Room(|NumberText(value, base)|)
      modifies this`index, this`text, buffer
      ensures Valid() && text == old(text) + old(NumberText(value, base))
    {
      var scratch := new char[SCRATCH];
      var i := WriteDigits(scratch, value, base);
      if flagMinimumLength {
        i := PadScratch(scratch, if flagPadZero then '0' else ' ', minimumLength, Digits(value, base), i);
      }
      PutScratch(scratch, i);
    }

    // The 'c' conversion.
    method PutCharacter(a: Word)
      requires Valid() && Room(|Converted('c', Current(), Number(a))|)
      modifies this`index, this`text, buffer
      ensures Valid() && text == old(text) + old(Converted('c', Current(), Number(a)))
    {
      Out((a % 256) as char);
    }

    // The 's' conversion.
    method PutText(value: CString)
      requires Valid() && Room(|Converted('s', Current(), Text(value))|)
      modifies this`index, this`text, buffer
      ensures Valid() && text == old(text) + old(Converted('s', Current(), Text(value)))
    {
      ghost var clipped := Clipped(Current(), value);
      var i := 0;
      while i < |value| && (!flagMaximumLength || i < maximumLength)
        invariant 0 <= i <= |clipped|
        invariant Valid() && text == old(text) + value[..i]
      {
        Out(value[i]);
        i := i + 1;
        assert value[..i] == value[..i - 1] + [value[i - 1]];
      }
      assert value[..i] == clipped;
    }

    // What a number conversion still has to put out.
    ghost function NumberText(value: Word, base: int): string
      requires base == 10 || base == 16
      reads this
    {
      if flagMinimumLength then Padded(if flagPadZero then '0' else ' ', minimumLength, Digits(value, base))
      else Digits(value, base)
    }

    // The 'd' conversion.
    method PutSigned(a: Word)
      requires Valid() && Accepts('d', Current(), Number(a)) && Room(|Converted('d', Current(), Number(a))|)
      modifies this`index, this`text, this`minimumLength, buffer
      ensures Valid() && text == old(text) + old(Converted('d', Current(), Number(a)))
    {
      hide Digits, Padded;
      var value := Signed(a, flagLong);
      if value < 0 {
        Out('-');
        value := -value;
        minimumLength := Int32(minimumLength - 1);
      }
      PutNumber(value, 10);
    }

    // The 'u' conversion.
    method PutUnsigned(a: Word)
      requires Valid() && Accepts('u', Current(), Number(a)) && Room(|Converted('u', Current(), Number(a))|)
      modifies this`index, this`text, buffer
      ensures Valid() && text == old(text) + old(Converted('u', Current(), Number(a)))
    {
      PutNumber(Unsigned(a, flagLong), 10);
    }

    // The 'x' conversion.
    method PutHex(a: Word)
      requires Valid() && Accepts('x', Current(), Number(a)) && Room(|Converted('x', Current(), Number(a))|)
      modifies this`index, this`text, this`minimumLength, buffer
      ensures Valid() && text == old(text) + old(Converted('x', Current(), Number(a)))
    {
      hide Digits, Padded;
      if flagPrefix {
        Out('0');
        Out('x');
        minimumLength := Int32(minimumLength - 2);
      }
      PutNumber(Unsigned(a, flagLong), 16);
    }

    // The 'p' conversion.
    method PutPointer(a: Word)
      requires Valid() && Accepts('p', Current(), Number(a)) && Room(|Converted('p', Current(), Number(a))|)
      modifies this`index, this`text, this`minimumLength, buffer
      ensures Valid() && text == old(text) + old(Converted('p', Current(), Number(a)))
    {
      hide Digits, Padded;
      Out('0');
      Out('x');
      minimumLength := Int32(minimumLength - 2);
      PutNumber(a, 16);
    }

    // The conversions of vsprintf_generic_checkAction, for the next argument.
    method Convert(c: char, a: Arg)
      requires Valid() && IsConversion(c) && Accepts(c, Current(), a) && Room(|Converted(c, Current(), a)|)
      modifies this`index, this`text, this`minimumLength, buffer
      ensures Valid() && text == old(text) + old(Converted(c, Current(), a))
    {
      hide Converted, FitsScratch, Signed;
      if c == 'c' {
        PutCharacter(a.value);
      } else if c == 'd' {
        PutSigned(a.value);
      } else if c == 'p' {
        PutPointer(a.value);
      } else if c == 's' {
        PutText(a.text);
      } else if c == 'u' {
        PutUnsigned(a.value);
      } else {
        PutHex(a.value);
      }
    }

    // vsprintf_generic_checkAction
    method CheckAction(c: char)
      requires Valid() && state != START
      requires var (q, item) := Act(Now().mode, Now().spec, c);
               ItemMatches(item, args) && Room(|ItemText(item, args)|)
      modifies this, buffer
      ensures Valid()
      ensures var (q, item) := Act(old(Now()).mode, old(Now()).spec, c);
              && Now() == q && args == ArgsLeft(item, old(args)) && text == old(text) + ItemText(item, old(args))
    {
      hide Converted, Accepts, IsConversion;
      if c == '%' {
        Out('%');
      } else if c == 'l' {
        flagLong := true;
        state := ACTION_L;
      } else {
        if IsConversion(c) {
          Convert(c, args[0]);
          args := args[1..];
        }
        state := START;
      }
    }

    // One character of vsprintf_generic's loop.
    method Feed(c: char)
      requires Valid()
      requires var (q, item) := Next(Now(), c); ItemMatches(item, args) && Room(|ItemText(item, args)|)
      modifies this, buffer
      ensures Valid()
      ensures var (q, item) := Next(old(Now()), c);
              && Now() == q && args == ArgsLeft(item, old(args)) && text == old(text) + ItemText(item, old(args))
    {
      hide Act, Converted, Accepts, Int32;
      match state
      case START =>
        if c == '%' {
          flagPrefix, flagPadZero, flagMinimumLength, flagMaximumLength, flagLong := false, false, false, false, false;
          minimumLength, maximumLength := 0, 0;
          state := ESCAPE;
        } else {
          Out(c);
        }
      case ESCAPE =>
        if c == '0' {
          flagPadZero := true;
        } else if c == '#' {
          flagPrefix := true;
        } else if '1' <= c <= '9' {
          flagMinimumLength := true;
          minimumLength := (c - '0') as int;
          state := MINLEN;
        } else if c == '.' {
          flagMaximumLength := true;
          maximumLength := 0;
          state := MAXLEN;
        } else {
          CheckAction(c);
        }
      case MINLEN =>
        if '0' <= c <= '9' {
          minimumLength := Int32(minimumLength * 10);
          minimumLength := Int32(minimumLength + (c - '0') as int);
        } else if c == '.' {
          flagMaximumLength := true;
          maximumLength := 0;
          state := MAXLEN;
        } else {
          CheckAction(c);
        }
      case MAXLEN =>
        if '0' <= c <= '9' {
          maximumLength := Int32(maximumLength * 10);
          maximumLength := Int32(maximumLength + (c - '0') as int);
        } else {
          CheckAction(c);
        }
      case ACTION_L =>
        CheckAction(c);
    }

    // vsprintf_generic
    method Generic(format: CString) returns (r: int)
      requires Valid() && Now() == Start && text == ""
      requires Matches(Parse(Start, format), args) && Room(|Rendered(Parse(Start, format), args)|)
      modifies this, buffer
      ensures text == old(Rendered(Parse(Start, format), args))
      ensures r == Int32(Stored(|text|))
      ensures buffer[..Stored(|text|)] == text[..Stored(|text|)] && buffer[Stored(|text|)] == '\0'
      ensures buffer[Stored(|text|) + 1..] == before[Stored(|text|) + 1..]
    {
      hide Next, Parse, Rendered, Matches, ItemText, ItemMatches, ArgsLeft;
      ghost var whole := Rendered(Parse(Start, format), args);
      var i := 0;
      assert format[0..] == format;
      while i < |format|
        invariant 0 <= i <= |format| && Valid()
        invariant Matches(Parse(Now(), format[i..]), args)
        invariant text + Rendered(Parse(Now(), format[i..]), args) == whole
        invariant Stored(|whole|) < buffer.Length
      {
        RenderStep(Now(), format[i..], args);
        assert format[i..][1..] == format[i + 1..];
        Feed(format[i]);
        i := i + 1;
      }
      assert format[i..] == [];
      NothingLeft(Now(), args);
      buffer[index] := '\0';
      r := Int32(index);
    }
  }

  lemma NothingLeft(p: Parser, args: seq<Arg>)
    ensures Parse(p, []) == [] && Matches([], args) && Rendered([], args) == []
  {
  }

  // ----------------------------------------------------------- the entry points

  // vsprintf
  method Vsprintf(buffer: array<char>, format: CString, args: seq<Arg>) returns (r: int)
    requires Matches(Parse(Start, format), args) && |Rendered(Parse(Start, format), args)| < buffer.Length
    modifies buffer
    ensures var text := Rendered(Parse(Start, format), args);
            && buffer[..|text|] == text && buffer[|text|] == '\0' && r == Int32(|text|)
            && buffer[|text| + 1..] == old(buffer[|text| + 1..])
  {
    var context := new Context(buffer, 0, false, args);
    r := context.Generic(format);
    assert buffer[..|context.text|] == context.text;
  }

  // How much vsnprintf stores of n characters: a size of 0 wraps to no limit.
  function Kept(size: Word, n: nat): nat {
    var limit := (size - 1) % WORD_LIMIT;
    if limit < n then limit else n
  }

  // vsnprintf stores exactly the first size - 1 characters of what vsprintf would
  // store, whatever the format and arguments, and returns how many it stored.
  method Vsnprintf(buffer: array<char>, size: Word, format: CString, args: seq<Arg>) returns (r: int)
    requires Matches(Parse(Start, format), args)
    requires Kept(size, |Rendered(Parse(Start, format), args)|) < buffer.Length
    modifies buffer
    ensures var text := Rendered(Parse(Start, format), args);
            var kept := Kept(size, |text|);
            && buffer[..kept] == text[..kept] && buffer[kept] == '\0' && r == Int32(kept)
            && buffer[kept + 1..] == old(buffer[kept + 1..])
  {
    var context := new Context(buffer, (size - 1) % WORD_LIMIT, true, args);
    r := context.Generic(format);
  }

  // With room for at least one character in the limit, size 0 excluded, the kept
  // part is the C one; ISO C99 7.19.6.12 returns the full length instead, so the
  // results differ exactly when the output is cut.
  lemma KeptIsTruncation(size: Word, n: nat)
    ensures size >= 1 ==> Kept(size, n) == if n < size then n else size - 1
    ensures size >= 1 ==> (Kept(size, n) == n <==> n < size)
    ensures size == 0 && n < WORD_LIMIT ==> Kept(size, n) == n
  {
  }

  lemma OneMore(filler: char, n: int, digits: string)
    requires n > 0
    ensures [filler] + (Fill(filler, n - 1) + digits) == Fill(filler, n) + digits
  {
  }

  lemma DigitsStep(v: nat, base: int)
    requires 2 <= base <= 16
    ensures Digits(v, base) == (if v / base != 0 then Digits(v / base, base) else []) + [DigitChar(v % base)]
    ensures v / base != 0 ==> v / base < v
  {
    Divided(v, base);
  }
}
