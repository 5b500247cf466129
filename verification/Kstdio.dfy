/** The integer printer and the bounded formatter. */
module Kstdio {
  import opened Bits
  import opened Options

  const SIGN: int := 0x8000_0000_0000_0000

  // ----- numerals -----

  function DigitChar(d: nat): char
    requires d < 36
  {
    if d < 10 then '0' + d as char else 'A' + (d - 10) as char
  }

  function DigitValue(c: char): nat {
    if '0' <= c <= '9' then (c - '0') as nat else if 'A' <= c <= 'Z' then (c - 'A') as nat + 10 else 0
  }

  /** The numeral of n, highest digit first. */
  function Digits(n: nat, base: nat): (s: string)
    requires 2 <= base <= 36
    ensures s != []
  {
    if n < base then [DigitChar(n)] else Digits(n / base, base) + [DigitChar(n % base)]
  }

  function Parse(s: string, base: nat): nat {
    if s == [] then 0 else Parse(s[..|s| - 1], base) * base + DigitValue(s[|s| - 1])
  }

  /** What itoa prints: with a sign only for base 10, where the word is read as two's complement. */
  function Printed(n: u64, base: nat, signed: bool): string
    requires 2 <= base <= 36
  {
    if signed && base == 10 && n >= SIGN then "-" + Digits(WORD64 - n, base) else Digits(n, base)
  }

  function ParseSigned(s: string, base: nat): int {
    if s != [] && s[0] == '-' then 0 - (Parse(s[1..], base) as int) else Parse(s, base)
  }

  lemma DigitRoundTrip(d: nat)
    requires d < 36
    ensures DigitValue(DigitChar(d)) == d && DigitChar(d) != '-' && DigitChar(d) != '\0' &&
            (DigitChar(d) == '0' ==> d == 0)
  {
  }

  /** The digits are 0 to 9, from 0x30 on, and then A to Z, from 0x41 on. */
  lemma DigitCharExactly(d: nat)
    requires d < 36
    ensures DigitChar(d) as int == if d < 10 then 0x30 + d else 0x41 + (d - 10)
  {
  }

  /** Parsing a numeral gives the number back. */
  lemma {:induction false} ParseDigits(n: nat, base: nat)
    requires 2 <= base <= 36
    ensures Parse(Digits(n, base), base) == n
  {
    hide DigitChar, DigitValue, Parse;
    SmallQuotient(n, base);
    if n < base {
      DigitRoundTrip(n);
      ParseSnoc([], DigitChar(n), base);
    } else {
      DigitRoundTrip(n % base);
      ParseDigits(n / base, base);
      ParseSnoc(Digits(n / base, base), DigitChar(n % base), base);
    }
  }

  lemma ParseSnoc(s: string, c: char, base: nat)
    ensures Parse(s + [c], base) == Parse(s, base) * base + DigitValue(c)
    ensures s == [] ==> s + [c] == [c] && Parse([c], base) == DigitValue(c)
  {
    assert (s + [c])[..|s|] == s;
  }

  /** A numeral has no leading zero and holds only digits of its base. */
  lemma {:induction false} DigitsShape(n: nat, base: nat)
    requires 2 <= base <= 36
    ensures forall c :: c in Digits(n, base) ==>
              0x30 <= c as int < 0x30 + (if base < 10 then base else 10) || 0x41 <= c as int < 0x41 + (base - 10)
    ensures '-' !in Digits(n, base) && '\0' !in Digits(n, base)
    ensures |Digits(n, base)| > 1 || n > 0 ==> Digits(n, base)[0] != '0'
  {
    hide DigitChar, DigitValue;
    DigitRoundTrip(n % base);
    SmallQuotient(n, base);
    DigitCharExactly(n % base);
    if n < base {
      DigitRoundTrip(n);
    } else {
      DigitsShape(n / base, base);
    }
  }

  function Pow(b: nat, k: nat): nat { if k == 0 then 1 else b * Pow(b, k - 1) }

  lemma {:induction false} DigitsLength(n: nat, base: nat, k: nat)
    requires 2 <= base <= 36 && k > 0 && n < Pow(base, k)
    ensures |Digits(n, base)| <= k
  {
    hide DigitChar;
    SmallQuotient(n, base);
    PowStep(base, k);
    if n >= base {
      DivBound(n, base, Pow(base, k - 1));
      DigitsLength(n / base, base, k - 1);
    }
  }

  lemma PowStep(b: nat, k: nat)
    requires k > 0
    ensures Pow(b, k) == b * Pow(b, k - 1) && (k == 1 ==> Pow(b, k) == b)
  {
  }

  lemma DivBound(n: nat, b: nat, p: nat)
    requires b > 0 && n < b * p
    ensures n / b < p
  {
    assert n == n / b * b + n % b;
    if n / b >= p { MulMono(p, n / b, b); }
  }

  /** itoa has an inverse for every word: the unsigned value, or the two's complement value, comes back. */
  lemma PrintedInverse(n: u64, base: nat, signed: bool)
    requires 2 <= base <= 36
    ensures ParseSigned(Printed(n, base, signed), base) == if signed && base == 10 && n >= SIGN then n - WORD64 else n
    ensures '\0' !in Printed(n, base, signed)
  {
    if signed && base == 10 && n >= SIGN {
      ParseDigits(WORD64 - n, base);
      DigitsShape(WORD64 - n, base);
      var s := Digits(WORD64 - n, base);
      assert ("-" + s)[1..] == s;
    } else {
      ParseDigits(n, base);
      DigitsShape(n, base);
      assert Digits(n, base)[0] in Digits(n, base);
    }
  }

  /** In base 10 and 16 the text and its terminator take at most 21 bytes. */
  lemma PrintedFits(n: u64, base: nat, signed: bool)
    requires base == 10 || base == 16
    ensures |Printed(n, base, signed)| + 1 <= 21
  {
    Powers10();
    if base == 16 {
      Powers16();
      DigitsLength(n, 16, 16);
    } else if signed && n >= SIGN {
      DigitsLength(WORD64 - n, 10, 19);
    } else {
      DigitsLength(n, 10, 20);
    }
  }

  lemma Powers10()
    ensures Pow(10, 19) >= SIGN + 1 && Pow(10, 20) >= WORD64
  {
    assert Pow(10, 10) == 10_000_000_000;
    assert Pow(10, 19) == 10_000_000_000_000_000_000;
  }

  lemma Powers16()
    ensures Pow(16, 16) == WORD64
  {
    assert Pow(16, 8) == 0x1_0000_0000;
  }

  // ----- itoa -----

  function Reverse(s: string): (r: string)
    ensures |r| == |s|
  {
    if s == [] then [] else Reverse(s[1..]) + [s[0]]
  }

  lemma {:induction false} ReverseSnoc(s: string, c: char)
    ensures Reverse(s + [c]) == [c] + Reverse(s)
  {
    if s != [] {
      assert (s + [c])[1..] == s[1..] + [c];
      ReverseSnoc(s[1..], c);
    } else {
      assert [c][1..] == [];
    }
  }

  lemma {:induction false} ReverseAt(s: string, i: nat)
    requires i < |s|
    ensures Reverse(s)[i] == s[|s| - 1 - i]
  {
    if i < |s| - 1 { ReverseAt(s[1..], i); }
  }

  /** Reverses str[lo..hi] in place. */
  method ReverseInPlace(str: array<char>, lo: nat, hi: nat)
    requires lo < hi <= str.Length
    modifies str
    ensures str[..] == old(str[..lo]) + Reverse(old(str[lo..hi])) + old(str[hi..])
  {
    ghost var was, mid := str[..], str[lo..hi];
    var pa, pb := lo, hi - 1;
    while pa < pb
      invariant lo <= pa && pb < hi && pa + pb == lo + hi - 1 && pa <= pb + 1
      invariant forall i :: lo <= i < pa || pb < i < hi ==> str[i] == was[lo + hi - 1 - i]
      invariant forall i :: 0 <= i < lo || pa <= i <= pb || hi <= i < str.Length ==> str[i] == was[i]
    {
      var tmp := str[pa];
      str[pa] := str[pb];
      str[pb] := tmp;
      pa, pb := pa + 1, pb - 1;
    }
    forall i | lo <= i < hi ensures str[i] == Reverse(mid)[i - lo] {
      ReverseAt(mid, i - lo);
    }
  }

  /** The digit loop: the digits of n from str[first] on, lowest first. */
  method PutDigits(str: array<char>, first: nat, n: nat, base: nat) returns (p: nat)
    requires 2 <= base <= 36 && first + |Digits(n, base)| <= str.Length
    modifies str
    ensures p == first + |Digits(n, base)| && Reverse(str[first..p]) == Digits(n, base)
    ensures str[..first] == old(str[..first]) && str[p..] == old(str[p..])
  {
    hide DigitChar, Reverse;
    p := first;
    var decimal: nat := n;
    var more := true;
    EmptyReverse(str[first..p]);
    while more
      invariant first <= p <= first + |Digits(n, base)| && str[..first] == old(str[..first])
      invariant Digits(n, base) == (if more then Digits(decimal, base) else []) + Reverse(str[first..p])
      invariant forall i :: first + |Digits(n, base)| <= i < str.Length ==> str[i] == old(str[i])
      decreases more, decimal
    {
      var digit := decimal % base;
      ghost var before := str[first..p];
      str[p] := DigitChar(digit);
      assert str[first..p + 1] == before + [DigitChar(digit)];
      ReverseSnoc(before, DigitChar(digit));
      LastDigit(decimal, base, Reverse(before));
      p := p + 1;
      decimal := decimal / base;
      more := decimal != 0;
    }
  }

  lemma EmptyReverse(s: string)
    requires s == []
    ensures Reverse(s) == []
  {
  }

  lemma SmallQuotient(n: nat, base: nat)
    requires base >= 2
    ensures if n < base then n / base == 0 && n % base == n else 1 <= n / base < n
    ensures n == n / base * base + n % base && n % base < base
  {
    var q, r := n / base, n % base;
    assert n == q * base + r;
    if n < base {
      DivUnique(n, base, 0, n);
    } else {
      assert q * base > 0;
      MulMono(2, base, q);
    }
  }

  lemma LastDigit(n: nat, base: nat, rest: string)
    requires 2 <= base <= 36
    ensures (if n / base != 0 then Digits(n / base, base) else []) + ([DigitChar(n % base)] + rest) ==
              Digits(n, base) + rest
    ensures n / base != 0 ==> n / base < n
  {
    hide DigitChar;
    SmallQuotient(n, base);
    if n >= base {
      assert Digits(n / base, base) + ([DigitChar(n % base)] + rest) ==
        Digits(n / base, base) + [DigitChar(n % base)] + rest;
    }
  }

  /** The digits of n, highest first, and a terminator, from str[first] on. */
  method PutNumeral(str: array<char>, first: nat, n: nat, base: nat)
    requires 2 <= base <= 36 && first + |Digits(n, base)| < str.Length
    modifies str
    ensures str[..] == old(str[..first]) + Digits(n, base) + ['\0'] + old(str[first + |Digits(n, base)| + 1..])
  {
    hide Digits, Reverse, DigitChar;
    var p := PutDigits(str, first, n, base);
    ghost var was, digits := old(str[..]), str[..];
    Terminated(digits, was, first, p);
    str[p] := '\0';
    assert str[..] == digits[p := '\0'];
    ReverseInPlace(str, first, p);
    TerminatorApart(was[..first] + Digits(n, base), was[p + 1..]);
  }

  lemma Terminated(digits: seq<char>, was: seq<char>, first: nat, p: nat)
    requires |digits| == |was| && first <= p < |was| && digits[..first] == was[..first] && digits[p..] == was[p..]
    ensures var now := digits[p := '\0'];
            now[..first] == was[..first] && now[first..p] == digits[first..p] && now[p..] == ['\0'] + was[p + 1..]
  {
    assert was[p..][1..] == was[p + 1..] == digits[p..][1..];
  }

  lemma TerminatorApart(a: string, b: string)
    ensures a + (['\0'] + b) == a + ['\0'] + b
  {
  }

  lemma SignFirst(was: seq<char>, digits: string)
    requires |digits| + 2 <= |was|
    ensures var marked := was[0 := '-'];
            marked[..1] + digits + ['\0'] + marked[|digits| + 2..] == ("-" + digits) + ['\0'] + was[|digits| + 2..]
  {
    assert was[0 := '-'][..1] == "-" && was[0 := '-'][|digits| + 2..] == was[|digits| + 2..];
  }

  /** Writes the text of n and a terminator at the start of str. */
  method Itoa(n: u64, str: array<char>, base: nat, signed: bool)
    requires 2 <= base <= 36 && |Printed(n, base, signed)| < str.Length
    modifies str
    ensures var p := Printed(n, base, signed); str[..] == p + ['\0'] + old(str[|p| + 1..])
  {
    hide Digits;
    if signed && base == 10 && n >= SIGN {
      SignFirst(str[..], Digits(WORD64 - n, base));
      str[0] := '-';
      assert str[..] == old(str[..])[0 := '-'];
      PutNumeral(str, 1, WORD64 - n, base);
    } else {
      PutNumeral(str, 0, n, base);
    }
  }

  // ----- formats -----

  /** Text as C has it: no terminator inside. */
  type Text = s: string | '\0' !in s

  /** One variable argument: a string pointer, or an integer of one of the four widths the formatter reads. */
  datatype Arg = Str(s: Option<Text>) | Int(i: int) | Unsigned(u: nat) | Long(l: int) | UnsignedLong(ul: nat)

  predicate InRange(a: Arg) {
    match a
    case Str(_) => true
    case Int(i) => -0x8000_0000 <= i < 0x8000_0000
    case Unsigned(u) => u < 0x1_0000_0000
    case Long(l) => -SIGN <= l < SIGN
    case UnsignedLong(ul) => ul < WORD64
  }

  /** A signed integer as the unsigned parameter of itoa receives it. */
  function ToWord(i: int): u64
    requires -SIGN <= i < SIGN
  {
    if i < 0 then i + WORD64 else i
  }

  /** The character at an index; the terminator follows the last one. */
  function CharAt(f: string, i: nat): char
    requires i <= |f|
  {
    if i < |f| then f[i] else '\0'
  }

  /** Whether conversion c takes an argument, and whether a is of the kind it reads. */
  predicate Takes(c: char) { c == 's' || c == 'd' || c == 'u' || c == 'x' }

  predicate Matches(c: char, long: bool, a: Arg) {
    InRange(a) &&
    (c == 's' ==> a.Str?) && (c == 'd' ==> if long then a.Long? else a.Int?) &&
    (c == 'u' || c == 'x' ==> if long then a.UnsignedLong? else a.Unsigned?)
  }

  /** What a conversion prints; a null string and an unknown conversion, the percent sign among them, print nothing. */
  function Piece(c: char, long: bool, args: seq<Arg>): string
    requires Takes(c) ==> args != [] && Matches(c, long, args[0])
  {
    match c
    case 's' => (match args[0].s case None => "" case Some(t) => t)
    case 'd' => Printed(ToWord(if long then args[0].l else args[0].i), 10, true)
    case 'u' => Printed(if long then args[0].ul else args[0].u, 10, false)
    case 'x' => Printed(if long then args[0].ul else args[0].u, 16, false)
    case _ => ""
  }

  function Rest(c: char, args: seq<Arg>): seq<Arg> {
    if Takes(c) && args != [] then args[1..] else args
  }

  /** How many characters of a length prefix stand at the start of f: ll, l or none. */
  function Prefix(f: string): (n: nat)
    ensures n <= |f| && n <= 2
  {
    if |f| >= 2 && f[0] == 'l' && f[1] == 'l' then 2 else if |f| >= 1 && f[0] == 'l' then 1 else 0
  }

  /** Every conversion has its letter before the end of the format, and its argument. */
  predicate WellFormed(f: string, args: seq<Arg>) {
    if f == [] then true
    else if f[0] == '%' && |f| > 1 then
      var n := 1 + Prefix(f[1..]);
      n < |f| && (Takes(f[n]) ==> args != [] && Matches(f[n], n > 1, args[0])) &&
      WellFormed(f[n + 1..], Rest(f[n], args))
    else WellFormed(f[1..], args)
  }

  /** The whole output, if there were room for it. */
  function Expand(f: string, args: seq<Arg>): string
    requires WellFormed(f, args)
  {
    if f == [] then []
    else if f[0] == '%' && |f| > 1 then
      var n := 1 + Prefix(f[1..]);
      Piece(f[n], n > 1, args) + Expand(f[n + 1..], Rest(f[n], args))
    else [f[0]] + Expand(f[1..], args)
  }

  // ----- formats from directives -----

  datatype Directive = Literal(c: char) | Conversion(prefix: nat, c: char)

  predicate Proper(d: Directive) {
    match d
    case Literal(c) => c != '%' && c != '\0'
    case Conversion(prefix, c) => prefix <= 2 && (c == 'l' ==> prefix == 2) && c != '\0'
  }

  function Render(ds: seq<Directive>): string {
    if ds == [] then []
    else
      (match ds[0]
       case Literal(c) => [c]
       case Conversion(prefix, c) => "%" + Ls(prefix) + [c])
      + Render(ds[1..])
  }

  predicate ArgsFit(ds: seq<Directive>, args: seq<Arg>) {
    if ds == [] then true
    else match ds[0]
      case Literal(_) => ArgsFit(ds[1..], args)
      case Conversion(prefix, c) =>
        (Takes(c) ==> args != [] && Matches(c, prefix > 0, args[0])) && ArgsFit(ds[1..], Rest(c, args))
  }

  /** Each directive on its own: a literal stands for itself, a conversion for its piece. */
  function Meaning(ds: seq<Directive>, args: seq<Arg>): string
    requires ArgsFit(ds, args)
  {
    if ds == [] then []
    else match ds[0]
      case Literal(c) => [c] + Meaning(ds[1..], args)
      case Conversion(prefix, c) => Piece(c, prefix > 0, args) + Meaning(ds[1..], Rest(c, args))
  }

  function Ls(prefix: nat): string { if prefix == 0 then "" else if prefix == 1 then "l" else "ll" }

  /** What can stand at the end of a format after its last directive: nothing, a lone percent sign, or a conversion that
      breaks off after its prefix. */
  predicate Tail(tail: string) { tail == "" || tail == "%" || tail == "%l" || tail == "%ll" }

  ghost predicate AllProper(ds: seq<Directive>) { forall d :: d in ds ==> Proper(d) }

  /** Every format is a list of directives and a tail. */
  lemma {:induction false} FormatShape(f: string) returns (ds: seq<Directive>, tail: string)
    requires '\0' !in f
    ensures f == Render(ds) + tail && AllProper(ds) && Tail(tail)
    decreases |f|
  {
    hide Prefix, Ls, Proper, Render;
    if f == [] {
      ds, tail := [], "";
      RenderNothing();
    } else if f == "%" {
      ds, tail := [], "%";
      RenderNothing();
    } else if f[0] != '%' {
      ds, tail := FormatShape(f[1..]);
      assert f == [f[0]] + f[1..];
      LiteralProper(f[0]);
      ds := ConsShape(Literal(f[0]), ds);
    } else {
      var n := 1 + Prefix(f[1..]);
      FirstConversion(f);
      if n == |f| {
        ds, tail := [], f;
        RenderNothing();
      } else {
        ds, tail := FormatShape(f[n + 1..]);
        ds := ConsShape(Conversion(n - 1, f[n]), ds);
      }
    }
  }

  lemma RenderNothing()
    ensures Render([]) == [] && [] + "" == "" && forall s: string :: [] + s == s
  {
  }

  lemma LiteralProper(c: char)
    requires c != '%' && c != '\0'
    ensures Proper(Literal(c))
  {
  }

  lemma FirstConversion(f: string)
    requires |f| > 1 && f[0] == '%' && '\0' !in f
    ensures var n := 1 + Prefix(f[1..]);
            if n == |f| then Tail(f)
            else n < |f| && Proper(Conversion(n - 1, f[n])) && f == "%" + Ls(n - 1) + [f[n]] + f[n + 1..]
  {
    var n := 1 + Prefix(f[1..]);
    assert f[..n] == "%" + Ls(n - 1);
    if n < |f| { assert f == f[..n] + [f[n]] + f[n + 1..]; }
  }

  lemma ConsShape(d: Directive, rest: seq<Directive>) returns (ds: seq<Directive>)
    requires Proper(d) && AllProper(rest)
    ensures ds == [d] + rest && AllProper(ds) && Render(ds) == Render([d]) + Render(rest)
    ensures Render([d]) == match d case Literal(c) => [c] case Conversion(prefix, c) => "%" + Ls(prefix) + [c]
  {
    ds := [d] + rest;
    assert ds[1..] == rest && [d][1..] == [];
  }

  /** The scan of a conversion finds its prefix and its letter. */
  lemma ScanConversion(prefix: nat, c: char, rest: string)
    requires Proper(Conversion(prefix, c))
    ensures var f := "%" + Ls(prefix) + [c] + rest;
            prefix + 1 < |f| && f[0] == '%' && Prefix(f[1..]) == prefix && f[prefix + 1] == c && f[prefix + 2..] == rest
  {
    var f := "%" + Ls(prefix) + [c] + rest;
    assert f[1..] == Ls(prefix) + [c] + rest;
  }

  lemma ScanTail(tail: string, args: seq<Arg>)
    requires Tail(tail)
    ensures WellFormed(tail, args) <==> tail == "" || tail == "%"
    ensures WellFormed(tail, args) ==> Expand(tail, args) == tail
  {
    if tail == "%l" || tail == "%ll" { assert tail[1..] == Ls(|tail| - 1); }
  }

  /** A format is read within its bounds, and its arguments exist, if and only if its tail is no broken-off conversion
      and the arguments fit its directives; then the scan splits it back into those directives. */
  lemma {:induction false} WellFormedExactly(ds: seq<Directive>, tail: string, args: seq<Arg>)
    requires AllProper(ds) && Tail(tail)
    ensures WellFormed(Render(ds) + tail, args) <==> (tail == "" || tail == "%") && ArgsFit(ds, args)
    ensures WellFormed(Render(ds) + tail, args) ==> Expand(Render(ds) + tail, args) == Meaning(ds, args) + tail
  {
    hide Piece, Matches, Takes, Prefix, Ls, Expand, WellFormed, Proper, Render, Meaning, ArgsFit, Rest;
    if ds == [] {
      ScanTail(tail, args);
      NoDirectives(tail, args);
    } else {
      assert ds[0] in ds;
      match ds[0] {
        case Literal(c) =>
          WellFormedExactly(ds[1..], tail, args);
          ScanLiteral(c, Render(ds[1..]) + tail, args);
          FirstLiteral(ds, tail, args);
        case Conversion(prefix, c) =>
          WellFormedExactly(ds[1..], tail, Rest(c, args));
          ScanOne(prefix, c, Render(ds[1..]) + tail, args);
          FirstConversionOf(ds, tail, args);
      }
    }
  }

  lemma NoDirectives(tail: string, args: seq<Arg>)
    ensures Render([]) + tail == tail && ArgsFit([], args) && Meaning([], args) + tail == tail
  {
  }

  lemma FirstLiteral(ds: seq<Directive>, tail: string, args: seq<Arg>)
    requires ds != [] && ds[0].Literal?
    ensures Render(ds) + tail == [ds[0].c] + (Render(ds[1..]) + tail)
    ensures ArgsFit(ds, args) <==> ArgsFit(ds[1..], args)
    ensures ArgsFit(ds, args) ==> Meaning(ds, args) + tail == [ds[0].c] + (Meaning(ds[1..], args) + tail)
  {
  }

  lemma FirstConversionOf(ds: seq<Directive>, tail: string, args: seq<Arg>)
    requires ds != [] && ds[0].Conversion?
    ensures Render(ds) + tail == "%" + Ls(ds[0].prefix) + [ds[0].c] + (Render(ds[1..]) + tail)
    ensures var c, long := ds[0].c, ds[0].prefix > 0;
            var fits := Takes(c) ==> args != [] && Matches(c, long, args[0]);
            (ArgsFit(ds, args) <==> fits && ArgsFit(ds[1..], Rest(c, args))) &&
            (ArgsFit(ds, args) ==>
              Meaning(ds, args) + tail == Piece(c, long, args) + (Meaning(ds[1..], Rest(c, args)) + tail))
  {
    hide Piece, Matches, Ls;
  }

  lemma ScanLiteral(c: char, rest: string, args: seq<Arg>)
    requires Proper(Literal(c))
    ensures WellFormed([c] + rest, args) <==> WellFormed(rest, args)
    ensures WellFormed(rest, args) ==> Expand([c] + rest, args) == [c] + Expand(rest, args)
  {
    assert ([c] + rest)[1..] == rest;
  }

  lemma ScanOne(prefix: nat, c: char, rest: string, args: seq<Arg>)
    requires Proper(Conversion(prefix, c))
    ensures var f := "%" + Ls(prefix) + [c] + rest;
            var fits := Takes(c) ==> args != [] && Matches(c, prefix > 0, args[0]);
            (WellFormed(f, args) <==> fits && WellFormed(rest, Rest(c, args))) &&
            (fits && WellFormed(rest, Rest(c, args)) ==>
              Expand(f, args) == Piece(c, prefix > 0, args) + Expand(rest, Rest(c, args)))
  {
    hide Piece, Matches, Prefix, Ls;
    ScanConversion(prefix, c, rest);
    var f := "%" + Ls(prefix) + [c] + rest;
    var n := 1 + Prefix(f[1..]);
    assert n == prefix + 1 < |f| && f[n] == c && f[n + 1..] == rest;
  }

  // ----- what single conversions print -----

  /** A text counts its last digit once and the rest base times. */
  lemma ParseExactly(s: string, c: char, base: nat)
    ensures Parse("", base) == 0
    ensures Parse(s + [c], base) ==
              Parse(s, base) * base +
              (if '0' <= c <= '9' then c as int - 0x30 else if 'A' <= c <= 'Z' then c as int - 0x41 + 10 else 0)
  {
    hide Parse;
    ParseSnoc(s, c, base);
    ParseNothing(base);
  }

  lemma ParseNothing(base: nat)
    ensures Parse("", base) == 0
  {
  }

  lemma NumeralOf(n: u64, base: nat)
    requires base == 10 || base == 16
    ensures var s := Printed(n, base, false);
            s != [] && Parse(s, base) == n && (|s| > 1 ==> s[0] != '0') &&
            forall c :: c in s ==> '0' <= c <= '9' || (base == 16 && 'A' <= c <= 'F')
  {
    ParseDigits(n, base);
    DigitsShape(n, base);
  }

  lemma SignedNumeralOf(i: int)
    requires -SIGN <= i < SIGN
    ensures var s := Printed(ToWord(i), 10, true);
            s != [] && (if i < 0 then s[0] == '-' && Parse(s[1..], 10) == -i else Parse(s, 10) == i) &&
            (|s| > 1 ==> s[0] != '0') && forall k :: (if i < 0 then 1 else 0) <= k < |s| ==> '0' <= s[k] <= '9'
  {
    hide Digits, Parse;
    var n := if i < 0 then 0 - i else i;
    NumeralOf(n, 10);
    var d := Digits(n, 10);
    assert forall k :: 0 <= k < |d| ==> d[k] in d;
    if i < 0 {
      assert ("-" + d)[1..] == d && forall k :: 1 <= k <= |d| ==> ("-" + d)[k] == d[k - 1];
    }
  }

  /** A format that is one conversion, with no prefix, l or ll. */
  lemma OneConversion(prefix: nat, c: char, args: seq<Arg>)
    requires Proper(Conversion(prefix, c))
    ensures var f := "%" + Ls(prefix) + [c];
            var fits := Takes(c) ==> args != [] && Matches(c, prefix > 0, args[0]);
            (WellFormed(f, args) <==> fits) && (fits ==> Expand(f, args) == Piece(c, prefix > 0, args))
  {
    hide Piece, Matches, Ls;
    ScanOne(prefix, c, "", args);
    assert "%" + Ls(prefix) + [c] + "" == "%" + Ls(prefix) + [c];
  }

  /** A conversion with no prefix, l or ll. */
  function Spelled(prefix: nat, c: char): string {
    (if prefix == 0 then "%" else if prefix == 1 then "%l" else "%ll") + [c]
  }

  lemma SpelledOut()
    ensures Spelled(0, 'x') == "%x" && Spelled(1, 'x') == "%lx" && Spelled(2, 'x') == "%llx" && Spelled(0, '%') == "%%"
    ensures Spelled(0, 'd') == "%d" && Spelled(1, 'u') == "%lu" && Spelled(2, 'd') == "%lld" && Spelled(0, 's') == "%s"
  {
  }

  lemma SpelledLs(prefix: nat, c: char)
    requires prefix <= 2
    ensures Spelled(prefix, c) == "%" + Ls(prefix) + [c]
  {
  }

  /** %x and %u print an unsigned number in base 16 and 10, of 32 bits with no prefix and of 64 bits with l or ll: only
      digits, no leading zero, and the number back when parsed. */
  lemma NumberConversions(prefix: nat, c: char, a: Arg)
    requires prefix <= 2 && (c == 'x' || c == 'u')
    ensures var f, base := Spelled(prefix, c), if c == 'x' then 16 else 10;
            (WellFormed(f, [a]) <==> if prefix == 0 then a.Unsigned? && a.u < 0x1_0000_0000
                                     else a.UnsignedLong? && a.ul < 0x1_0000_0000_0000_0000) &&
            (WellFormed(f, [a]) ==>
              var s := Expand(f, [a]);
              s != [] && Parse(s, base) == (if prefix == 0 then a.u else a.ul) && (|s| > 1 ==> s[0] != '0') &&
              forall d :: d in s ==> '0' <= d <= '9' || (c == 'x' && 'A' <= d <= 'F'))
  {
    hide Ls, WellFormed, Expand, Parse, Digits, Spelled;
    OneConversion(prefix, c, [a]);
    SpelledLs(prefix, c);
    if a.Unsigned? && a.u < WORD64 { NumeralOf(a.u, if c == 'x' then 16 else 10); }
    if a.UnsignedLong? && a.ul < WORD64 { NumeralOf(a.ul, if c == 'x' then 16 else 10); }
  }

  /** %d prints a signed number in base 10, of 32 bits with no prefix and of 64 bits with l or ll, with a minus sign if
      it is negative. */
  lemma SignedConversions(prefix: nat, a: Arg)
    requires prefix <= 2
    ensures var f := Spelled(prefix, 'd');
            (WellFormed(f, [a]) <==> if prefix == 0 then a.Int? && -0x8000_0000 <= a.i < 0x8000_0000
                                     else a.Long? && -0x8000_0000_0000_0000 <= a.l < 0x8000_0000_0000_0000) &&
            (WellFormed(f, [a]) ==>
              var s, i := Expand(f, [a]), if prefix == 0 then a.i else a.l;
              s != [] && (if i < 0 then s[0] == '-' && Parse(s[1..], 10) == -i else Parse(s, 10) == i) &&
              (|s| > 1 ==> s[0] != '0') && forall k :: (if i < 0 then 1 else 0) <= k < |s| ==> '0' <= s[k] <= '9')
  {
    hide Ls, WellFormed, Expand, Parse, Digits, Spelled, Printed;
    OneConversion(prefix, 'd', [a]);
    SpelledLs(prefix, 'd');
    if a.Int? && -SIGN <= a.i < SIGN { SignedNumeralOf(a.i); }
    if a.Long? && -SIGN <= a.l < SIGN { SignedNumeralOf(a.l); }
  }

  /** %s prints its text, with any prefix, and nothing for a null string. */
  lemma StringConversions(prefix: nat, a: Arg)
    requires prefix <= 2
    ensures var f := Spelled(prefix, 's');
            (WellFormed(f, [a]) <==> a.Str?) &&
            (a.Str? && a.s.Some? ==> Expand(f, [a]) == a.s.value) && (a.Str? && a.s.None? ==> Expand(f, [a]) == "")
  {
    hide Ls, WellFormed, Expand, Spelled;
    OneConversion(prefix, 's', [a]);
    SpelledLs(prefix, 's');
  }

  /** %% and every other letter print nothing and take no argument, with any prefix. */
  lemma OtherConversions(prefix: nat, c: char, rest: string, args: seq<Arg>)
    requires prefix <= 2 && c != 's' && c != 'd' && c != 'u' && c != 'x' && c != '\0' && (c == 'l' ==> prefix == 2)
    ensures WellFormed(Spelled(prefix, c) + rest, args) <==> WellFormed(rest, args)
    ensures WellFormed(rest, args) ==> Expand(Spelled(prefix, c) + rest, args) == Expand(rest, args)
  {
    hide Ls, WellFormed, Expand, Spelled;
    ScanOne(prefix, c, rest, args);
    SpelledLs(prefix, c);
  }

  /** A conversion with an argument prints what it prints alone, and the rest of the format goes on with the rest of the
      arguments; any other character stands for itself. */
  lemma ConversionThenRest(prefix: nat, c: char, a: Arg, rest: string, args: seq<Arg>)
    requires prefix <= 2 && (c == 's' || c == 'd' || c == 'u' || c == 'x')
    ensures var f := Spelled(prefix, c);
            (WellFormed(f + rest, [a] + args) <==> WellFormed(f, [a]) && WellFormed(rest, args)) &&
            (WellFormed(f, [a]) && WellFormed(rest, args) ==>
              Expand(f + rest, [a] + args) == Expand(f, [a]) + Expand(rest, args))
  {
    hide Ls, WellFormed, Expand, Matches, Spelled;
    OneConversion(prefix, c, [a]);
    ScanOne(prefix, c, rest, [a] + args);
    SpelledLs(prefix, c);
    assert ([a] + args)[0] == a && ([a] + args)[1..] == args;
  }

  lemma LiteralThenRest(c: char, rest: string, args: seq<Arg>)
    requires c != '%' && c != '\0'
    ensures WellFormed([c] + rest, args) <==> WellFormed(rest, args)
    ensures WellFormed(rest, args) ==> Expand([c] + rest, args) == [c] + Expand(rest, args)
  {
    ScanLiteral(c, rest, args);
  }

  // ----- the formatter -----

  function Min(a: nat, b: nat): nat { if a < b then a else b }

  /** The count as the int that is returned. */
  function ToInt32(n: nat): int {
    (n + 0x8000_0000) % 0x1_0000_0000 - 0x8000_0000
  }

  lemma CountExactly(k: nat)
    ensures -0x8000_0000 <= ToInt32(k) < 0x8000_0000 && (ToInt32(k) - k) % 0x1_0000_0000 == 0
    ensures k < 0x8000_0000 ==> ToInt32(k) == k
  {
    var n := k + 0x8000_0000;
    assert n % 0x1_0000_0000 == n - n / 0x1_0000_0000 * 0x1_0000_0000;
    assert ToInt32(k) - k == -(n / 0x1_0000_0000) * 0x1_0000_0000;
  }

  /** The buffer holds as much of the output so far as there is room for, and nothing beyond it has changed. */
  ghost predicate Holds(now: seq<char>, was: seq<char>, size: nat, idx: nat, out: string) {
    |now| == |was| && size > 0 && idx == Min(size - 1, |out|) && idx < |now| &&
    now[..idx] == out[..idx] && now[idx..] == was[idx..]
  }

  /** The buffer has room for what a call with this size can write of this output and its terminator. */
  ghost predicate Room(length: nat, size: nat, out: string) {
    size > 0 && Min(size - 1, |out|) < length
  }

  /** Appends one character if there is room. */
  method Put(str: array<char>, size: nat, idx: nat, c: char, ghost was: seq<char>, ghost out: string)
    returns (idx': nat)
    requires Holds(str[..], was, size, idx, out) && Room(str.Length, size, out + [c])
    modifies str
    ensures Holds(str[..], was, size, idx', out + [c])
  {
    idx' := idx;
    if idx < size - 1 {
      str[idx] := c;
      idx' := idx + 1;
    }
  }

  /** Appends the text at the start of src up to its terminator, and stops when the room is used up. */
  method PutText(str: array<char>, size: nat, idx: nat, src: seq<char>, ghost text: Text, ghost was: seq<char>,
                 ghost out: string)
    returns (idx': nat)
    requires Holds(str[..], was, size, idx, out) && Room(str.Length, size, out + text)
    requires |text| < |src| && src[..|text|] == text && src[|text|] == '\0'
    modifies str
    ensures Holds(str[..], was, size, idx', out + text)
  {
    idx' := idx;
    var j := 0;
    assert out + text[..0] == out;
    while src[j] != '\0'
      invariant 0 <= j <= |text| && Holds(str[..], was, size, idx', out + text[..j])
      decreases |text| - j
    {
      assert j < |text| && src[j] == src[..|text|][j] == text[j];
      assert out + text[..j + 1] == out + text[..j] + [text[j]];
      if idx' < size - 1 {
        idx' := Put(str, size, idx', src[j], was, out + text[..j]);
      } else {
        Full(str[..], was, size, idx', out + text[..j], out + text);
        return;
      }
      j := j + 1;
    }
    assert text[..j] == text;
  }

  /** Once the room is used up, more output changes nothing. */
  lemma Full(now: seq<char>, was: seq<char>, size: nat, idx: nat, out: string, more: string)
    requires Holds(now, was, size, idx, out) && idx >= size - 1 && out <= more
    ensures Holds(now, was, size, idx, more)
  {
    assert more[..idx] == out[..idx];
  }

  /** Prints the piece of one conversion. */
  method PutPiece(str: array<char>, size: nat, idx: nat, c: char, long: bool, args: seq<Arg>, ghost was: seq<char>,
                  ghost out: string)
    returns (idx': nat)
    requires Takes(c) ==> args != [] && Matches(c, long, args[0])
    requires Holds(str[..], was, size, idx, out) && Room(str.Length, size, out + Piece(c, long, args))
    modifies str
    ensures Holds(str[..], was, size, idx', out + Piece(c, long, args))
  {
    hide Printed, Holds, Room;
    idx' := idx;
    ghost var piece := Piece(c, long, args);
    assert out + [] == out;
    if c == 's' {
      if args[0].s.Some? {
        var text := args[0].s.value;
        idx' := PutText(str, size, idx, text + ['\0'], text, was, out);
      }
    } else if c == 'd' || c == 'u' || c == 'x' {
      var buf := new char[128];
      var n: u64 := if c == 'd' then ToWord(if long then args[0].l else args[0].i)
                    else if long then args[0].ul else args[0].u;
      var base, signed := if c == 'x' then 16 else 10, c == 'd';
      PrintedFits(n, base, signed);
      PrintedInverse(n, base, signed);
      Itoa(n, buf, base, signed);
      assert buf[..][..|piece|] == piece;
      idx' := PutText(str, size, idx, buf[..], piece, was, out);
    }
  }

  lemma NothingPut(now: seq<char>, size: nat, all: string)
    requires Room(|now|, size, all)
    ensures Holds(now, now, size, 0, "")
  {
  }

  /** At the end of the format the output is complete. */
  lemma Finished(now: seq<char>, was: seq<char>, size: nat, idx: nat, out: string, f: string, args: seq<Arg>)
    requires Holds(now, was, size, idx, out) && f == [] && WellFormed(f, args)
    ensures out + Expand(f, args) == out && idx < |now| && idx == Min(size - 1, |out|)
    ensures now[..idx] == out[..idx] && now[idx + 1..] == was[idx + 1..]
  {
    assert now[idx..][1..] == now[idx + 1..] && was[idx..][1..] == was[idx + 1..];
  }

  lemma RoomFor(length: nat, size: nat, out: string, piece: string, more: string, all: string)
    requires Room(length, size, all) && all == out + (piece + more)
    ensures Room(length, size, out + piece) && all == (out + piece) + more
  {
  }

  /** Skips a length prefix. */
  method ReadPrefix(format: Text, i: nat) returns (i': nat, is64: bool)
    requires i < |format|
    ensures i' == i + Prefix(format[i..]) && is64 == (i' > i)
  {
    i', is64 := i, false;
    if format[i] == 'l' && CharAt(format, i + 1) == 'l' {
      is64 := true;
      i' := i + 2;
    } else if format[i] == 'l' && CharAt(format, i + 1) != 'l' {
      is64 := true;
      i' := i + 1;
    }
  }

  /** One step of the expansion, at a conversion and at any other character. */
  lemma StepConversion(format: Text, i: nat, args: seq<Arg>)
    requires i + 1 < |format| && format[i] == '%' && WellFormed(format[i..], args)
    ensures var n := i + 1 + Prefix(format[i..][1..]);
            format[i..][1..] == format[i + 1..] && n < |format| &&
            (Takes(format[n]) ==> args != [] && Matches(format[n], n > i + 1, args[0])) &&
            WellFormed(format[n + 1..], Rest(format[n], args)) &&
            Expand(format[i..], args) ==
              Piece(format[n], n > i + 1, args) + Expand(format[n + 1..], Rest(format[n], args))
  {
    hide Piece, Matches, Prefix;
    var f := format[i..];
    var n := 1 + Prefix(f[1..]);
    assert f[n + 1..] == format[i + n + 1..];
  }

  lemma StepLiteral(format: Text, i: nat, args: seq<Arg>)
    requires i < |format| && (format[i] != '%' || i + 1 == |format|) && WellFormed(format[i..], args)
    ensures WellFormed(format[i + 1..], args)
    ensures Expand(format[i..], args) == [format[i]] + Expand(format[i + 1..], args)
  {
    assert format[i..][1..] == format[i + 1..];
  }

  /** Expands the format into str, of which the first size characters may be used. What is written is exactly the start
      of the whole output that fits before the terminator. */
  method Vsnprintf(str: array?<char>, size: nat, format: Text, args: seq<Arg>) returns (count: int)
    requires WellFormed(format, args)
    requires str != null && size > 0 ==> Room(str.Length, size, Expand(format, args))
    modifies if str == null then {} else {str}
    ensures str == null || size == 0 ==> count == 0 && (str != null ==> str[..] == old(str[..]))
    ensures str != null && size > 0 ==>
              var out := Expand(format, args);
              var k := Min(size - 1, |out|);
              count == ToInt32(k) && str[..] == out[..k] + ['\0'] + old(str[k + 1..])
    ensures str != null && size > 0 ==>
              var out := Expand(format, args);
              var k := if |out| < size then |out| else size - 1;
              -0x8000_0000 <= count < 0x8000_0000 && (count - k) % 0x1_0000_0000 == 0 &&
              (k < 0x8000_0000 ==> count == k) &&
              str[..] == out[..k] + ['\0'] + old(str[k + 1..])
  {
    hide Piece, Matches, Prefix, Takes, Rest, WellFormed, Expand, Holds, Room;
    if str == null || size == 0 { return 0; }
    ghost var was, all := str[..], Expand(format, args);
    ghost var out := "";
    var rest := args;
    var idx: nat, i: nat := 0, 0;
    NothingPut(str[..], size, all);
    assert format[0..] == format && out + Expand(format, args) == all;
    while i < |format|
      invariant i <= |format| && WellFormed(format[i..], rest) && out + Expand(format[i..], rest) == all
      invariant Holds(str[..], was, size, idx, out)
    {
      ghost var f := format[i..];
      if format[i] == '%' && CharAt(format, i + 1) != '\0' {
        i := i + 1;
        var is64;
        i, is64 := ReadPrefix(format, i);
        StepConversion(format, i - 1 - Prefix(f[1..]), rest);
        var c := format[i];
        RoomFor(str.Length, size, out, Piece(c, is64, rest), Expand(format[i + 1..], Rest(c, rest)), all);
        idx := PutPiece(str, size, idx, c, is64, rest, was, out);
        out := out + Piece(c, is64, rest);
        rest := Rest(c, rest);
      } else {
        StepLiteral(format, i, rest);
        RoomFor(str.Length, size, out, [format[i]], Expand(format[i + 1..], rest), all);
        idx := Put(str, size, idx, format[i], was, out);
        out := out + [format[i]];
      }
      i := i + 1;
    }
    Finished(str[..], was, size, idx, out, format[i..], rest);
    str[idx] := '\0';
    CountExactly(idx);
    return ToInt32(idx);
  }
}
