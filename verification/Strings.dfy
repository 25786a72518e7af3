/**
  The string handling that the cores share: splitting and joining on a separator,
  first positions, and decimal numerals, as the Python built-ins define them.
*/
module Strings {

  datatype Option<+T> = None | Some(value: T)

  lemma Associate<T>(a: seq<T>, b: seq<T>, c: seq<T>)
    ensures a + (b + c) == (a + b) + c
  {
  }

  lemma Regroup<T>(a: seq<T>, b: seq<T>, c: seq<T>, d: seq<T>)
    ensures a + (b + (c + d)) == ((a + b) + c) + d
  {
  }

  // ----- Splitting and joining -----

  /** `s.split(sep)`: never empty, and no part holds the separator. */
  function Split<T(==)>(s: seq<T>, sep: T): (parts: seq<seq<T>>)
    ensures |parts| >= 1
    ensures forall p :: p in parts ==> sep !in p
  {
    if s == [] then [[]]
    else
      var rest := Split(s[1..], sep);
      if s[0] == sep then [[]] + rest
      else [[s[0]] + rest[0]] + rest[1..]
  }

  /** `sep.join(parts)`. */
  function Join<T>(parts: seq<seq<T>>, sep: T): seq<T> {
    if |parts| == 0 then []
    else if |parts| == 1 then parts[0]
    else parts[0] + [sep] + Join(parts[1..], sep)
  }

  /** Joining what was split gives the string back. */
  lemma {:induction false} JoinSplit<T>(s: seq<T>, sep: T)
    ensures Join(Split(s, sep), sep) == s
  {
    if s != [] {
      JoinSplit(s[1..], sep);
      var rest := Split(s[1..], sep);
      if s[0] == sep {
        assert Split(s, sep)[1..] == rest;
      } else {
        assert Split(s, sep)[1..] == rest[1..];
      }
    }
  }

  /** A separator-free prefix lengthens the first part only. */
  lemma {:induction false} SplitPrefix<T>(pre: seq<T>, s: seq<T>, sep: T)
    requires sep !in pre
    ensures Split(pre + s, sep) == [pre + Split(s, sep)[0]] + Split(s, sep)[1..]
  {
    if pre == [] {
      assert pre + s == s;
      assert pre + Split(s, sep)[0] == Split(s, sep)[0];
    } else {
      SplitPrefix(pre[1..], s, sep);
      var first := Split(s, sep)[0];
      assert (pre + s)[0] == pre[0] && (pre + s)[1..] == pre[1..] + s;
      assert pre[0] != sep;
      Associate([pre[0]], pre[1..], first);
      assert [pre[0]] + pre[1..] == pre;
    }
  }

  /** A string without the separator is its own only part. */
  lemma SplitWhole<T>(s: seq<T>, sep: T)
    requires sep !in s
    ensures Split(s, sep) == [s]
  {
    SplitPrefix(s, [], sep);
    assert s + [] == s;
  }

  /** The first separator cuts the list of parts. */
  lemma SplitAtFirst<T>(a: seq<T>, b: seq<T>, sep: T)
    requires sep !in a
    ensures Split(a + [sep] + b, sep) == [a] + Split(b, sep)
  {
    SplitPrefix(a, [sep] + b, sep);
    assert a + [sep] + b == a + ([sep] + b);
    assert ([sep] + b)[1..] == b;
    assert a + [] == a;
  }

  /** Splitting what was joined gives the parts back, when they are free of the separator. */
  lemma {:induction false} SplitJoin<T>(parts: seq<seq<T>>, sep: T)
    requires |parts| >= 1
    requires forall p :: p in parts ==> sep !in p
    ensures Split(Join(parts, sep), sep) == parts
  {
    if |parts| == 1 {
      SplitWhole(parts[0], sep);
    } else {
      SplitJoin(parts[1..], sep);
      SplitAtFirst(parts[0], Join(parts[1..], sep), sep);
      assert [parts[0]] + parts[1..] == parts;
    }
  }

  /** A part holds nothing that the whole does not. */
  lemma {:induction false} SplitElements<T>(s: seq<T>, sep: T, i: nat)
    requires i < |Split(s, sep)|
    ensures forall c :: c in Split(s, sep)[i] ==> c in s
  {
    if s != [] {
      if s[0] == sep {
        if i > 0 {
          SplitElements(s[1..], sep, i - 1);
        }
      } else {
        SplitElements(s[1..], sep, i);
      }
      assert s == [s[0]] + s[1..];
    }
  }

  // ----- Positions -----

  /** `s.index(c)` for a character that occurs: its first position. */
  function IndexOf<T(==)>(s: seq<T>, c: T): (i: nat)
    requires c in s
    ensures i < |s| && s[i] == c && c !in s[..i]
  {
    if s[0] == c then 0
    else
      var j := IndexOf(s[1..], c);
      assert s[..j + 1] == [s[0]] + s[1..][..j];
      j + 1
  }

  lemma IndexOfIs<T>(s: seq<T>, c: T, i: nat)
    requires i < |s| && s[i] == c && c !in s[..i]
    ensures c in s && IndexOf(s, c) == i
  {
    var j := IndexOf(s, c);
    assert forall k :: 0 <= k < i ==> s[..i][k] == s[k];
    assert forall k :: 0 <= k < j ==> s[..j][k] == s[k];
  }

  lemma CutAt<T>(s: seq<T>, i: nat)
    requires i < |s|
    ensures s == s[..i] + [s[i]] + s[i + 1..]
  {
  }

  /** Around the first separator. */
  lemma CutAtFirst<T>(a: seq<T>, sep: T, b: seq<T>)
    requires sep !in a
    ensures var s := a + [sep] + b;
            sep in s && IndexOf(s, sep) == |a| && s[..|a|] == a && s[|a| + 1..] == b
  {
    var s := a + [sep] + b;
    assert s[..|a|] == a;
    IndexOfIs(s, sep, |a|);
  }

  /** How often a character occurs. */
  function Count<T(==)>(s: seq<T>, c: T): nat {
    if s == [] then 0 else (if s[0] == c then 1 else 0) + Count(s[1..], c)
  }

  lemma {:induction false} CountConcat<T>(a: seq<T>, b: seq<T>, c: T)
    ensures Count(a + b, c) == Count(a, c) + Count(b, c)
  {
    if a == [] {
      assert a + b == b;
    } else {
      CountConcat(a[1..], b, c);
      assert (a + b)[1..] == a[1..] + b;
    }
  }

  lemma {:induction false} CountZero<T>(s: seq<T>, c: T)
    ensures Count(s, c) == 0 <==> c !in s
  {
    if s != [] {
      CountZero(s[1..], c);
      assert s == [s[0]] + s[1..];
    }
  }

  // ----- Case -----

  function Lower(c: char): char { if 'A' <= c <= 'Z' then ((c as int) + 32) as char else c }

  /** `s.lower()` on ASCII letters. */
  function LowerAll(s: string): string { seq(|s|, i requires 0 <= i < |s| => Lower(s[i])) }

  function Upper(c: char): char { if 'a' <= c <= 'z' then ((c as int) - 32) as char else c }

  function UpperAll(s: string): string { seq(|s|, i requires 0 <= i < |s| => Upper(s[i])) }

  lemma LowerUpper(a: char, b: char)
    ensures Lower(a) == Lower(b) <==> Upper(a) == Upper(b)
  {
  }

  /** Texts that differ in case only are the same in small letters, and no others. */
  lemma LowerIgnoresCase(s: string, t: string)
    ensures LowerAll(s) == LowerAll(t) <==> UpperAll(s) == UpperAll(t)
  {
    assert |LowerAll(s)| == |s| == |UpperAll(s)| && |LowerAll(t)| == |t| == |UpperAll(t)|;
    if |s| == |t| {
      forall i | 0 <= i < |s|
        ensures LowerAll(s)[i] == LowerAll(t)[i] <==> UpperAll(s)[i] == UpperAll(t)[i]
      {
        LowerUpper(s[i], t[i]);
      }
      assert LowerAll(s) == LowerAll(t) <==> forall i :: 0 <= i < |s| ==> LowerAll(s)[i] == LowerAll(t)[i];
      assert UpperAll(s) == UpperAll(t) <==> forall i :: 0 <= i < |s| ==> UpperAll(s)[i] == UpperAll(t)[i];
    }
  }

  // ----- Decimal numerals -----

  predicate IsDigit(c: char) { '0' <= c <= '9' }

  predicate IsDigits(s: string) { forall c :: c in s ==> IsDigit(c) }

  function DigitChar(d: nat): (c: char)
    requires d < 10
    ensures IsDigit(c) && (c as int) - ('0' as int) == d
  {
    ('0' as int + d) as char
  }

  /** `str(n)` for a natural number. */
  function Dec(n: nat): (s: string)
    ensures |s| >= 1 && IsDigits(s)
    ensures s[0] == '0' ==> n == 0 && |s| == 1
  {
    if n < 10 then [DigitChar(n)] else Dec(n / 10) + [DigitChar(n % 10)]
  }

  /** The value of a digit string; leading zeros allowed, the empty string counts 0. */
  function DecValue(s: string): nat
    requires IsDigits(s)
  {
    if s == "" then 0
    else
      assert IsDigit(s[|s| - 1]);
      DecValue(s[..|s| - 1]) * 10 + (s[|s| - 1] as int - '0' as int)
  }

  lemma {:induction false} DecRoundTrip(n: nat)
    ensures DecValue(Dec(n)) == n
  {
    if n < 10 {
      assert Dec(n)[..0] == "";
      assert DecValue("") == 0;
    } else {
      DecRoundTrip(n / 10);
      assert Dec(n)[..|Dec(n)| - 1] == Dec(n / 10);
    }
  }

  // ----- Integers as text -----

  /** `str(n)` for any integer. */
  function DecInt(n: int): string {
    if n < 0 then ['-'] + Dec(-n) else Dec(n)
  }

  /** The ASCII characters that `strip` takes away. */
  predicate IsSpace(c: char) { c == ' ' || '\t' <= c <= '\r' || '\U{1C}' <= c <= '\U{1F}' }

  /** `len(s.strip()) == 0`. */
  predicate IsBlank(s: string) { forall c :: c in s ==> IsSpace(c) }

  function TrimLeft(s: string): string {
    if s != "" && IsSpace(s[0]) then TrimLeft(s[1..]) else s
  }

  function TrimRight(s: string): string {
    if s != "" && IsSpace(s[|s| - 1]) then TrimRight(s[..|s| - 1]) else s
  }

  /** `s.strip()` */
  function Trim(s: string): string { TrimRight(TrimLeft(s)) }

  /** Digits with single underscores between them, as `int` reads them. */
  function ParseDigits(s: string): Option<int> {
    var runs := Split(s, '_');
    if forall r :: r in runs ==> r != "" && IsDigits(r) then Some(DecValue(Concat(runs))) else None
  }

  function Concat(parts: seq<string>): (s: string)
    ensures (forall p :: p in parts ==> IsDigits(p)) ==> IsDigits(s)
  {
    if parts == [] then ""
    else
      assert parts[0] in parts;
      parts[0] + Concat(parts[1..])
  }

  /** `int(s)`, with None for the ValueError. */
  function ParseInt(s: string): Option<int> {
    var t := Trim(s);
    if t != "" && t[0] == '-' then
      var n := ParseDigits(t[1..]);
      if n.None? then None else Some(-n.value)
    else
      ParseDigits(if t != "" && t[0] == '+' then t[1..] else t)
  }

  lemma DigitsParse(s: string)
    requires s != "" && IsDigits(s)
    ensures ParseDigits(s) == Some(DecValue(s))
  {
    SplitWhole(s, '_');
    assert Concat([s]) == s + Concat([]) == s;
  }

  lemma {:induction false} BlankTrims(s: string)
    requires IsBlank(s)
    ensures Trim(s) == ""
  {
    if s != "" {
      assert IsSpace(s[0]);
      BlankTrims(s[1..]);
    }
  }

  lemma TrimNothing(s: string)
    requires s != "" && !IsSpace(s[0]) && !IsSpace(s[|s| - 1])
    ensures Trim(s) == s
  {
  }

  lemma DigitsHaveNoSpace(d: string)
    requires d != "" && IsDigits(d)
    ensures !IsSpace(d[0]) && !IsSpace(d[|d| - 1])
  {
    assert IsDigit(d[0]) && IsDigit(d[|d| - 1]);
  }

  lemma ParseUnsigned(d: string)
    requires d != "" && IsDigits(d)
    ensures ParseInt(d) == Some(DecValue(d))
  {
    DigitsHaveNoSpace(d);
    TrimNothing(d);
    assert IsDigit(d[0]);
    DigitsParse(d);
  }

  lemma TrimSigned(sign: char, d: string)
    requires d != "" && IsDigits(d) && !IsSpace(sign)
    ensures Trim([sign] + d) == [sign] + d && ([sign] + d)[0] == sign && ([sign] + d)[1..] == d
  {
    DigitsHaveNoSpace(d);
    TrimNothing([sign] + d);
  }

  /** `int` takes a sign. */
  lemma ParseSigned(d: string, n: int)
    requires d != "" && IsDigits(d) && n == DecValue(d)
    ensures ParseInt(['-'] + d) == Some(-n) && ParseInt(['+'] + d) == Some(n)
  {
    TrimSigned('-', d);
    TrimSigned('+', d);
    DigitsParse(d);
  }

  /** `int(str(n)) == n`, negative numbers included. */
  lemma IntRoundTrip(n: int)
    ensures ParseInt(DecInt(n)) == Some(n)
    ensures forall c :: c in DecInt(n) ==> IsDigit(c) || c == '-'
  {
    var d := Dec(if n < 0 then -n else n);
    DecRoundTrip(if n < 0 then -n else n);
    if n < 0 {
      ParseSigned(d, -n);
      assert DecInt(n) == ['-'] + d;
    } else {
      ParseUnsigned(d);
    }
  }
}
