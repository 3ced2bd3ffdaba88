/** The ECMAScript built-ins the request handlers lean on: the two forms of
    `String.prototype.replace` they use, `parseInt`, the `||` fallback on
    Numbers and the conversion of a Number back to a string when it is
    interpolated into a template literal. */
module Js {
  import opened Text

  /** `s.replace(c, '')` with a one-character string pattern: only the first
      occurrence of `c` is replaced; later ones stay. */
  function RemoveFirst(s: string, c: char): (r: string)
    ensures c !in s ==> r == s
    ensures c in s ==> |r| == |s| - 1
    ensures multiset(r) == multiset(s) - multiset{c}
    ensures IsSubsequence(r, s)
    ensures c in s ==> exists i :: 0 <= i < |s| && s[i] == c && c !in s[..i] && r == s[..i] + s[i + 1..]
  {
    match IndexOf(s, c)
    case None =>
      SubsequenceReflexive(s);
      s
    case Some(i) =>
      assert s == s[..i] + [c] + s[i + 1..];
      assert multiset(s) == multiset(s[..i]) + multiset{c} + multiset(s[i + 1..]);
      SubsequenceDeleteOne(s[..i], c, s[i + 1..]);
      s[..i] + s[i + 1..]
  }

  /** `s.replace(/[...]/g, '')`: every character of the class `cs` is deleted. */
  function RemoveAll(s: string, cs: set<char>): (r: string)
    ensures forall i :: 0 <= i < |r| ==> r[i] !in cs
    ensures forall c :: c !in cs ==> multiset(r)[c] == multiset(s)[c]
    ensures |r| <= |s|
  {
    if s == [] then []
    else
      var rest := RemoveAll(s[1..], cs);
      assert s == [s[0]] + s[1..];
      assert multiset(s) == multiset{s[0]} + multiset(s[1..]);
      (if s[0] in cs then [] else [s[0]]) + rest
  }

  /** Deleting a class of characters keeps the order of what remains. */
  lemma {:induction false} RemoveAllSubsequence(s: string, cs: set<char>)
    ensures IsSubsequence(RemoveAll(s, cs), s)
    decreases |s|
  {
    if s != [] {
      RemoveAllSubsequence(s[1..], cs);
      var rest := RemoveAll(s[1..], cs);
      if s[0] in cs {
        assert RemoveAll(s, cs) == rest;
      } else {
        assert ([s[0]] + rest)[1..] == rest;
      }
    }
  }

  /** The global replace on a string that starts with `x`. */
  lemma RemoveAllCons(x: char, t: string, cs: set<char>)
    ensures RemoveAll([x] + t, cs) == (if x in cs then [] else [x]) + RemoveAll(t, cs)
  {
    assert ([x] + t)[0] == x;
    assert ([x] + t)[1..] == t;
  }

  /** The global replace works character by character, so it can be done
      piecewise on the parts of a string. */
  lemma {:induction false} RemoveAllConcat(a: string, b: string, cs: set<char>)
    ensures RemoveAll(a + b, cs) == RemoveAll(a, cs) + RemoveAll(b, cs)
    decreases |a|
  {
    if a == [] {
      assert a + b == b;
    } else {
      var x, t := a[0], a[1..];
      assert a == [x] + t;
      assert a + b == [x] + (t + b);
      RemoveAllCons(x, t + b, cs);
      RemoveAllCons(x, t, cs);
      RemoveAllConcat(t, b, cs);
      ConcatAssociative(if x in cs then [] else [x], RemoveAll(t, cs), RemoveAll(b, cs));
    }
  }

  /** A string with no character of the class is left as it is. */
  lemma {:induction false} RemoveAllNoop(s: string, cs: set<char>)
    requires forall i :: 0 <= i < |s| ==> s[i] !in cs
    ensures RemoveAll(s, cs) == s
    decreases |s|
  {
    if s != [] {
      RemoveAllNoop(s[1..], cs);
    }
  }

  /** Applying the same global replace twice changes nothing the second time. */
  lemma RemoveAllIdempotent(s: string, cs: set<char>)
    ensures RemoveAll(RemoveAll(s, cs), cs) == RemoveAll(s, cs)
  {
    RemoveAllNoop(RemoveAll(s, cs), cs);
  }

  /** A Number as far as these handlers can produce one: NaN or an integer.
      The two zeros are not told apart. */
  datatype Number = NaN | Int(value: int)

  /** The truthiness `||` tests: NaN and zero are falsy. */
  predicate Truthy(n: Number)
  {
    n.Int? && n.value != 0
  }

  /** The Number abstract operation ToInt32 on an integral argument. */
  function ToInt32(n: int): (r: int)
    ensures -0x8000_0000 <= r < 0x8000_0000
    ensures (n - r) % 0x1_0000_0000 == 0
  {
    var m := n % 0x1_0000_0000;
    if m >= 0x8000_0000 then m - 0x1_0000_0000 else m
  }

  /** StrWhiteSpaceChar: the white space and line terminators that parseInt
      skips, with the Zs category of Unicode spelled out. */
  predicate IsStrWhiteSpace(c: char)
  {
    c == '\t' || c == '\U{000B}' || c == '\U{000C}' || c == '\U{FEFF}'
    || c == ' ' || c == '\U{00A0}' || c == '\U{1680}' || ('\U{2000}' <= c <= '\U{200A}')
    || c == '\U{202F}' || c == '\U{205F}' || c == '\U{3000}'
    || c == '\n' || c == '\r' || c == '\U{2028}' || c == '\U{2029}'
  }

  /** TrimString(s, start). */
  function TrimStart(s: string): (r: string)
    ensures |r| <= |s| && r == s[|s| - |r|..]
    ensures forall i :: 0 <= i < |s| - |r| ==> IsStrWhiteSpace(s[i])
    ensures r != [] ==> !IsStrWhiteSpace(r[0])
  {
    if s != [] && IsStrWhiteSpace(s[0]) then TrimStart(s[1..]) else s
  }

  /** The value of `c` as a digit in radix 36, or 36 when `c` is no digit at all. */
  function DigitValue(c: char): (d: nat)
    ensures d <= 36
  {
    if '0' <= c <= '9' then c as int - '0' as int
    else if 'a' <= c <= 'z' then c as int - 'a' as int + 10
    else if 'A' <= c <= 'Z' then c as int - 'A' as int + 10
    else 36
  }

  /** Length of the longest prefix of `s` made of radix-`radix` digits. */
  function DigitRun(s: string, radix: nat): (n: nat)
    ensures n <= |s|
    ensures forall i :: 0 <= i < n ==> DigitValue(s[i]) < radix
    ensures n < |s| ==> DigitValue(s[n]) >= radix
  {
    if s != [] && DigitValue(s[0]) < radix then 1 + DigitRun(s[1..], radix) else 0
  }

  /** The mathematical value of the digit string `z` read in radix `radix`. */
  function DigitsValue(z: string, radix: nat): nat
  {
    if z == [] then 0
    else DigitsValue(z[..|z| - 1], radix) * radix + DigitValue(z[|z| - 1])
  }

  /** `parseInt(input, radix)` for an integral radix, following the steps of
      the ECMAScript definition: leading white space and one sign are
      skipped, a radix that is not 0 and lies outside 2..36 gives NaN, radix
      0 means 10 unless a `0x` prefix selects 16, and the longest run of
      digits is read; no digit at all gives NaN. */
  function ParseInt(input: string, radix: int): (r: Number)
    ensures ToInt32(radix) != 0 && !(2 <= ToInt32(radix) <= 36) ==> r == NaN
    ensures TrimStart(input) == [] ==> r == NaN
  {
    var r := ToInt32(radix);
    if r != 0 && (r < 2 || r > 36) then NaN
    else ParseSigned(TrimStart(input), r)
  }

  /** The signed part of parseInt, after white space: one `-` negates, one `+` is skipped. */
  function ParseSigned(s: string, r: int): Number
    requires r == 0 || 2 <= r <= 36
  {
    var negative := s != [] && s[0] == '-';
    var unsigned := if s != [] && (s[0] == '+' || s[0] == '-') then s[1..] else s;
    match ParseMagnitude(unsigned, r)
    case None => NaN
    case Some(m) => Int(if negative then -(m as int) else m)
  }

  /** The unsigned part of parseInt: radix 0 means 10 unless a `0x` prefix
      selects 16 (as it also may for radix 16), then the longest run of
      digits is read; None when the run is empty. */
  function ParseMagnitude(s: string, r: int): (m: Option<nat>)
    requires r == 0 || 2 <= r <= 36
  {
    var hex := (r == 0 || r == 16) && |s| >= 2 && s[0] == '0' && (s[1] == 'x' || s[1] == 'X');
    var digits := if hex then s[2..] else s;
    var radix := if hex then 16 else if r == 0 then 10 else r;
    var end := DigitRun(digits, radix);
    if end == 0 then None else Some(DigitsValue(digits[..end], radix))
  }

  /** The `||` of the handlers: the left operand when truthy, else the right one. */
  function Or(a: Number, b: Number): Number
  {
    if Truthy(a) then a else b
  }

  function DigitChar(d: nat): (c: char)
    requires d < 10
    ensures DigitValue(c) == d
  {
    ('0' as int + d) as char
  }

  /** Decimal digits of `n`, most significant first, with no leading zero. */
  function Decimal(n: nat): (r: string)
    ensures r != [] && (|r| > 1 ==> r[0] != '0')
    ensures forall i :: 0 <= i < |r| ==> '0' <= r[i] <= '9'
  {
    if n < 10 then [DigitChar(n)] else Decimal(n / 10) + [DigitChar(n % 10)]
  }

  /** Number::toString for the values of `Number`. */
  function NumberToString(n: Number): string
  {
    match n
    case NaN => "NaN"
    case Int(v) => if v < 0 then "-" + Decimal(-v) else Decimal(v)
  }

  lemma {:induction false} DecimalValue(n: nat)
    ensures DigitsValue(Decimal(n), 10) == n
    decreases n
  {
    if n >= 10 {
      DecimalValue(n / 10);
      var z := Decimal(n);
      assert z[..|z| - 1] == Decimal(n / 10);
    }
  }

  lemma TrimStartNoSpace(s: string)
    requires s != [] && !IsStrWhiteSpace(s[0])
    ensures TrimStart(s) == s
  {
  }

  lemma DigitRunAll(z: string)
    requires forall i :: 0 <= i < |z| ==> '0' <= z[i] <= '9'
    ensures DigitRun(z, 10) == |z|
  {
  }

  lemma MagnitudeOfDecimal(z: string)
    requires z != [] && forall i :: 0 <= i < |z| ==> '0' <= z[i] <= '9'
    ensures ParseMagnitude(z, 10) == Some(DigitsValue(z, 10))
  {
    DigitRunAll(z);
    assert z[..|z|] == z;
  }

  /** Without leading white space or sign, parseInt in radix 10 reads the magnitude. */
  lemma ParseUnsigned(s: string)
    requires s != [] && !IsStrWhiteSpace(s[0]) && s[0] != '+' && s[0] != '-'
    ensures ParseInt(s, 10) == match ParseMagnitude(s, 10) case None => NaN case Some(m) => Int(m)
  {
    TrimStartNoSpace(s);
    assert ParseInt(s, 10) == ParseSigned(s, 10);
  }

  /** After a minus sign, parseInt in radix 10 reads the negated magnitude. */
  lemma ParseNegative(z: string, m: nat)
    requires ParseMagnitude(z, 10) == Some(m)
    ensures ParseInt("-" + z, 10) == Int(-(m as int))
  {
    var s := "-" + z;
    assert s[0] == '-' && s[1..] == z;
    TrimStartNoSpace(s);
    assert ParseInt(s, 10) == ParseSigned(s, 10);
  }

  /** Converting an integral Number to a string and parsing it in radix 10 is
      the identity. */
  lemma ParseIntOfToString(n: int)
    ensures ParseInt(NumberToString(Int(n)), 10) == Int(n)
  {
    var m: nat := if n < 0 then -n else n;
    var z := Decimal(m);
    DecimalValue(m);
    MagnitudeOfDecimal(z);
    if n < 0 {
      assert NumberToString(Int(n)) == "-" + z;
      ParseNegative(z, m);
    } else {
      assert NumberToString(Int(n)) == z;
      assert '0' <= z[0] <= '9';
      ParseUnsigned(z);
    }
  }
}
