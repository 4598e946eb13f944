// Character classes and the small string operations the Ruby code uses
// throughout: strip, whitespace collapsing, case mapping (ASCII), digit
// extraction, prefix/suffix tests, substring search, joins and decimal
// rendering.

module Str {

  datatype Option<T> = None | Some(value: T)

  function OrElse<T>(o: Option<T>, d: T): (r: T)
    ensures o.Some? ==> r == o.value
    ensures o.None? ==> r == d
  {
    match o
    case None => d
    case Some(v) => v
  }

  predicate IsDigit(c: char) { '0' <= c <= '9' }
  predicate IsUpper(c: char) { 'A' <= c <= 'Z' }
  predicate IsLower(c: char) { 'a' <= c <= 'z' }
  predicate IsLetter(c: char) { IsUpper(c) || IsLower(c) }
  predicate IsAlnum(c: char) { IsLetter(c) || IsDigit(c) }
  /** Hexadecimal digit, either case (the `/i` form of `[A-F0-9]`). */
  predicate IsHexDigit(c: char) { IsDigit(c) || 'a' <= c <= 'f' || 'A' <= c <= 'F' }

  /** Ruby's regex `\s`: space, tab, newline, vertical tab, form feed, carriage return. */
  predicate IsSpace(c: char)
  {
    c == ' ' || c == '\t' || c == '\n' || c == '\U{000B}' || c == '\U{000C}' || c == '\r'
  }

  /** What `String#strip` removes at either end: the `\s` characters and NUL. */
  predicate IsStripChar(c: char) { IsSpace(c) || c == '\0' }

  /** `s.strip.empty?` */
  predicate IsBlank(s: string) { forall i :: 0 <= i < |s| ==> IsStripChar(s[i]) }

  predicate AllDigits(s: string) { forall i :: 0 <= i < |s| ==> IsDigit(s[i]) }

  predicate HasLetter(s: string) { exists i :: 0 <= i < |s| && IsLetter(s[i]) }

  // ---------------------------------------------------------------- case

  function LowerChar(c: char): (d: char)
    ensures IsUpper(c) ==> d as int == c as int + 32
    ensures !IsUpper(c) ==> d == c
    ensures !IsUpper(d)
  {
    if IsUpper(c) then (c as int + 32) as char else c
  }

  function UpperChar(c: char): (d: char)
    ensures IsLower(c) ==> d as int == c as int - 32
    ensures !IsLower(c) ==> d == c
    ensures !IsLower(d)
  {
    if IsLower(c) then (c as int - 32) as char else c
  }

  /** `downcase` restricted to ASCII letters. */
  function Lower(s: string): (r: string)
    ensures |r| == |s|
    ensures forall i :: 0 <= i < |s| ==> r[i] == LowerChar(s[i])
  {
    if s == [] then [] else [LowerChar(s[0])] + Lower(s[1..])
  }

  /** `upcase` restricted to ASCII letters. */
  function Upper(s: string): (r: string)
    ensures |r| == |s|
    ensures forall i :: 0 <= i < |s| ==> r[i] == UpperChar(s[i])
  {
    if s == [] then [] else [UpperChar(s[0])] + Upper(s[1..])
  }

  lemma LowerIdempotent(s: string)
    ensures Lower(Lower(s)) == Lower(s)
  {
    assert forall i :: 0 <= i < |s| ==> LowerChar(LowerChar(s[i])) == LowerChar(s[i]);
  }

  /** Case-insensitive equality, the ASCII part of a `/i` match. */
  predicate EqualsIgnoreCase(a: string, b: string) { Lower(a) == Lower(b) }

  function Min(a: int, b: int): int { if a <= b then a else b }
  function Max(a: int, b: int): int { if a >= b then a else b }

  lemma Assoc<T>(a: seq<T>, b: seq<T>, c: seq<T>)
    ensures (a + b) + c == a + (b + c)
  {
  }

  // ---------------------------------------------------------------- digits

  /** `s.gsub(/\D/, '')`: the digits of `s`, in order. */
  function Digits(s: string): (r: string)
    ensures AllDigits(r)
    ensures |r| <= |s|
    ensures AllDigits(s) ==> r == s
  {
    if s == [] then []
    else if IsDigit(s[0]) then [s[0]] + Digits(s[1..])
    else Digits(s[1..])
  }

  /** `+` and digits: the digits are all that `Digits` keeps. */
  lemma PlusDigits(d: string)
    requires AllDigits(d)
    ensures Digits("+" + d) == d && ("+" + d)[1..] == d && |"+" + d| == |d| + 1
  {
    DigitsAppend("+", d);
    assert Digits("+") == [];
  }

  lemma {:induction false} DigitsAppend(a: string, b: string)
    ensures Digits(a + b) == Digits(a) + Digits(b)
  {
    if a == [] {
      assert a + b == b;
    } else {
      assert (a + b)[1..] == a[1..] + b;
      DigitsAppend(a[1..], b);
    }
  }

  lemma {:induction false} DigitsEmptyIffNoDigit(s: string)
    ensures Digits(s) == [] <==> forall i :: 0 <= i < |s| ==> !IsDigit(s[i])
  {
    if s != [] {
      DigitsEmptyIffNoDigit(s[1..]);
      assert forall i :: 1 <= i < |s| ==> s[i] == s[1..][i - 1];
    }
  }

  /** `d[-10..-1]`: the last ten characters, nil when there are fewer than ten. */
  function Last10(d: string): (r: Option<string>)
    ensures r.Some? <==> |d| >= 10
    ensures r.Some? ==> |r.value| == 10 && d == d[..|d| - 10] + r.value
  {
    if |d| >= 10 then Some(d[|d| - 10..]) else None
  }

  // ---------------------------------------------------------------- strip

  function LStrip(s: string): (r: string)
    ensures |r| <= |s| && r == s[|s| - |r|..]
    ensures forall i :: 0 <= i < |s| - |r| ==> IsStripChar(s[i])
    ensures r == [] || !IsStripChar(r[0])
  {
    if s != [] && IsStripChar(s[0]) then LStrip(s[1..]) else s
  }

  function RStrip(s: string): (r: string)
    ensures |r| <= |s| && r == s[..|r|]
    ensures forall i :: |r| <= i < |s| ==> IsStripChar(s[i])
    ensures r == [] || !IsStripChar(r[|r| - 1])
  {
    if s != [] && IsStripChar(s[|s| - 1]) then RStrip(s[..|s| - 1]) else s
  }

  /** `String#strip`. */
  function Strip(s: string): (r: string)
    ensures r == [] || (!IsStripChar(r[0]) && !IsStripChar(r[|r| - 1]))
    ensures |r| <= |s|
  {
    LStrip(RStrip(s))
  }

  /** A string without edge whitespace is its own strip. */
  lemma StripFixed(s: string)
    requires s == [] || (!IsStripChar(s[0]) && !IsStripChar(s[|s| - 1]))
    ensures Strip(s) == s
  {}

  lemma {:induction false} LStripAllStrip(s: string)
    ensures LStrip(s) == [] <==> IsBlank(s)
  {
    if s != [] && IsStripChar(s[0]) {
      LStripAllStrip(s[1..]);
      assert forall i :: 1 <= i < |s| ==> s[i] == s[1..][i - 1];
    }
  }

  lemma StripEmptyIffBlank(s: string)
    ensures Strip(s) == [] <==> IsBlank(s)
  {
    var t := RStrip(s);
    LStripAllStrip(t);
    if IsBlank(t) {
      assert forall i :: 0 <= i < |s| ==> IsStripChar(s[i]) by {
        forall i | 0 <= i < |s| ensures IsStripChar(s[i]) {
          if i < |t| { assert s[i] == t[i]; }
        }
      }
    }
  }

  /** Stripping only removes characters. */
  lemma StripChars(s: string)
    ensures forall x :: x in Strip(s) ==> x in s
  {
    var t := RStrip(s);
    assert forall x :: x in t ==> x in s;
    assert forall x :: x in LStrip(t) ==> x in t;
  }

  // ---------------------------------------------------------------- whitespace runs

  /** Drops a leading run of `\s` characters. */
  function DropSpaces(s: string): (r: string)
    ensures |r| <= |s| && r == s[|s| - |r|..]
    ensures r == [] || !IsSpace(r[0])
  {
    if s != [] && IsSpace(s[0]) then DropSpaces(s[1..]) else s
  }

  /** `s.gsub(/\s+/, ' ')`: every maximal run of `\s` becomes one space. */
  function Collapse(s: string): (r: string)
    ensures |r| <= |s|
    decreases |s|
  {
    if s == [] then []
    else if IsSpace(s[0]) then [' '] + Collapse(DropSpaces(s[1..]))
    else [s[0]] + Collapse(s[1..])
  }

  /** A string in which the only `\s` character is the space and no two spaces touch. */
  predicate Collapsed(r: string)
  {
    (forall i :: 0 <= i < |r| && IsSpace(r[i]) ==> r[i] == ' ')
    && (forall i, j :: 0 <= i < |r| && j == i + 1 && j < |r| ==> !(r[i] == ' ' && r[j] == ' '))
  }

  lemma {:induction false} CollapseCollapsed(s: string)
    ensures Collapsed(Collapse(s))
    ensures Collapse(s) != [] && Collapse(s)[0] == ' ' ==> s != [] && IsSpace(s[0])
    decreases |s|
  {
    if s == [] {
    } else if IsSpace(s[0]) {
      var t := DropSpaces(s[1..]);
      CollapseCollapsed(t);
    } else {
      CollapseCollapsed(s[1..]);
    }
  }

  /** `s.gsub(/\s+/, ' ').strip`, the idiom the decoder and normaliser share. */
  function Squish(s: string): (r: string)
    ensures r == [] || (!IsStripChar(r[0]) && !IsStripChar(r[|r| - 1]))
  {
    Strip(Collapse(s))
  }

  lemma SubCollapsed(r: string, k: nat, n: nat)
    requires Collapsed(r) && k <= k + n <= |r|
    ensures Collapsed(r[k..k + n])
  {
    var t := r[k..k + n];
    assert forall i :: 0 <= i < |t| ==> t[i] == r[k + i];
  }

  lemma SquishCollapsed(s: string)
    ensures Collapsed(Squish(s))
  {
    var c := Collapse(s);
    CollapseCollapsed(s);
    var t := RStrip(c);
    SubCollapsed(c, 0, |t|);
    assert c[0..|t|] == t;
    var r := LStrip(t);
    SubCollapsed(t, |t| - |r|, |r|);
    assert t[|t| - |r|..|t| - |r| + |r|] == r;
  }

  /** A string already collapsed is its own collapse. */
  lemma {:induction false} CollapseFixed(s: string)
    requires Collapsed(s)
    ensures Collapse(s) == s
    decreases |s|
  {
    if s != [] {
      var t := s[1..];
      SubCollapsed(s, 1, |s| - 1);
      assert s[1..1 + (|s| - 1)] == t;
      CollapseFixed(t);
      assert s == [s[0]] + t;
      if IsSpace(s[0]) {
        assert s[0] == ' ';
        assert t == [] || !IsSpace(t[0]);
        assert DropSpaces(t) == t;
        assert Collapse(s) == [' '] + Collapse(t);
      } else {
        assert Collapse(s) == [s[0]] + Collapse(t);
      }
    }
  }

  /** A collapsed string without edge whitespace is its own squish, so
      squishing is idempotent. */
  lemma SquishFixed(s: string)
    requires Collapsed(s) && (s == [] || (!IsStripChar(s[0]) && !IsStripChar(s[|s| - 1])))
    ensures Squish(s) == s
  {
    CollapseFixed(s);
  }

  lemma SquishIdempotent(s: string)
    ensures Squish(Squish(s)) == Squish(s)
  {
    SquishCollapsed(s);
    SquishFixed(Squish(s));
  }

  /** Collapsing only introduces spaces. */
  lemma {:induction false} CollapseChars(s: string)
    ensures forall c :: c in Collapse(s) ==> c == ' ' || c in s
    decreases |s|
  {
    if s != [] {
      if IsSpace(s[0]) {
        var t := DropSpaces(s[1..]);
        CollapseChars(t);
        assert forall c :: c in t ==> c in s;
      } else {
        CollapseChars(s[1..]);
      }
    }
  }

  lemma SquishChars(s: string)
    ensures forall c :: c in Squish(s) ==> c == ' ' || c in s
  {
    CollapseChars(s);
    var c := Collapse(s);
    var t := RStrip(c);
    assert forall x :: x in t ==> x in c;
    var r := LStrip(t);
    assert forall x :: x in r ==> x in t;
  }

  // ---------------------------------------------------------------- prefix, suffix, search

  // These are generic so that the byte parsers can use them on `seq<byte>`.
  predicate StartsWith<T(==)>(s: seq<T>, p: seq<T>) { |p| <= |s| && s[..|p|] == p }
  predicate EndsWith<T(==)>(s: seq<T>, p: seq<T>) { |p| <= |s| && s[|s| - |p|..] == p }

  predicate OccursAt<T(==)>(s: seq<T>, p: seq<T>, i: nat) { i + |p| <= |s| && s[i..i + |p|] == p }

  predicate Contains<T(==)>(s: seq<T>, p: seq<T>) { exists i: nat | i <= |s| :: OccursAt(s, p, i) }

  /** Ruby's `^`: the start of the text or just after a newline. */
  predicate LineStart(s: string, p: nat) { p == 0 || (p <= |s| && s[p - 1] == '\n') }

  /** The end of the line that contains position `p`. */
  function LineEnd(s: string, p: nat): (e: nat)
    requires p <= |s|
    ensures p <= e <= |s| && (e == |s| || s[e] == '\n')
    ensures forall k :: p <= k < e ==> s[k] != '\n'
    decreases |s| - p
  {
    if p == |s| || s[p] == '\n' then p else LineEnd(s, p + 1)
  }

  /** `s.index(p, from)`: the first occurrence of `p` at or after `from`. */
  function IndexFrom<T(==)>(s: seq<T>, p: seq<T>, from: nat): (r: Option<nat>)
    ensures r.Some? ==> from <= r.value && OccursAt(s, p, r.value)
    ensures r.Some? ==> forall j: nat :: from <= j < r.value ==> !OccursAt(s, p, j)
    ensures r.None? ==> forall j: nat :: from <= j ==> !OccursAt(s, p, j)
    decreases |s| - from
  {
    if from + |p| > |s| then None
    else if s[from..from + |p|] == p then Some(from)
    else IndexFrom(s, p, from + 1)
  }

  /** `s.index(p)`: the first occurrence of `p`. */
  function IndexOf<T(==)>(s: seq<T>, p: seq<T>): (r: Option<nat>)
    ensures r.Some? <==> Contains(s, p)
    ensures r.Some? ==> OccursAt(s, p, r.value) && forall j: nat :: j < r.value ==> !OccursAt(s, p, j)
  {
    IndexFrom(s, p, 0)
  }

  // ---------------------------------------------------------------- runs, filters, maxima

  /** The end of the run of elements satisfying `P` that starts at `p`. */
  function RunEnd<T>(s: seq<T>, p: nat, P: T -> bool): (e: nat)
    requires p <= |s|
    ensures p <= e <= |s|
    ensures forall i :: p <= i < e ==> P(s[i])
    ensures e == |s| || !P(s[e])
    decreases |s| - p
  {
    if p < |s| && P(s[p]) then RunEnd(s, p + 1, P) else p
  }

  /** What `scan(/[class]{m,}/)` returns: the maximal runs of class members
      that are at least `m` long, in order. */
  function Runs<T>(s: seq<T>, P: T -> bool, m: nat): (r: seq<seq<T>>)
    ensures forall k :: 0 <= k < |r| ==> |r[k]| >= m && r[k] != []
    ensures forall k, i :: 0 <= k < |r| && 0 <= i < |r[k]| ==> P(r[k][i])
    decreases |s|
  {
    if s == [] then []
    else if !P(s[0]) then Runs(s[1..], P, m)
    else
      var e := RunEnd(s, 0, P);
      (if e >= m then [s[..e]] else []) + Runs(s[e..], P, m)
  }

  /** `select`. */
  function Filter<T>(s: seq<T>, P: T -> bool): (r: seq<T>)
    ensures |r| <= |s|
    ensures forall k :: 0 <= k < |r| ==> P(r[k])
    ensures forall x :: x in r ==> x in s
    ensures forall x :: x in s && P(x) ==> x in r
  {
    if s == [] then []
    else if P(s[0]) then [s[0]] + Filter(s[1..], P)
    else Filter(s[1..], P)
  }

  /** Selecting with a condition every element meets keeps everything. */
  lemma {:induction false} FilterAll<T>(s: seq<T>, P: T -> bool)
    requires forall k :: 0 <= k < |s| ==> P(s[k])
    ensures Filter(s, P) == s
  {
    if s != [] {
      FilterAll(s[1..], P);
    }
  }

  /** A two-part sort key compared lexicographically, as Ruby compares `[a, b]`. */
  datatype Key = Key(major: int, minor: int)

  predicate KeyLess(a: Key, b: Key)
  {
    a.major < b.major || (a.major == b.major && a.minor < b.minor)
  }

  /** `max_by`: the index of the first element whose key is maximal. */
  function ArgMaxFirst<T>(s: seq<T>, key: T -> Key): (i: nat)
    requires s != []
    ensures i < |s|
    ensures forall j :: 0 <= j < |s| ==> !KeyLess(key(s[i]), key(s[j]))
    ensures forall j :: 0 <= j < i ==> KeyLess(key(s[j]), key(s[i]))
    decreases |s|
  {
    if |s| == 1 then 0
    else
      var k := ArgMaxFirst(s[..|s| - 1], key);
      if KeyLess(key(s[k]), key(s[|s| - 1])) then |s| - 1 else k
  }

  /** `s.start_with?(p)` ignoring ASCII case. */
  predicate StartsWithCI(s: string, p: string) { StartsWith(Lower(s), Lower(p)) }
  predicate EndsWithCI(s: string, p: string) { EndsWith(Lower(s), Lower(p)) }
  predicate ContainsCI(s: string, p: string) { Contains(Lower(s), Lower(p)) }

  // ---------------------------------------------------------------- join

  /** `parts.join(sep)`. */
  function Join(parts: seq<string>, sep: string): (r: string)
    ensures |parts| == 1 ==> r == parts[0]
    ensures parts == [] ==> r == []
  {
    if parts == [] then []
    else if |parts| == 1 then parts[0]
    else parts[0] + sep + Join(parts[1..], sep)
  }

  lemma JoinCons(p: string, rest: seq<string>, sep: string)
    requires rest != []
    ensures Join([p] + rest, sep) == p + sep + Join(rest, sep)
  {
    assert ([p] + rest)[1..] == rest;
  }

  /** Prefixing the first part prefixes the join. */
  lemma JoinPrefixFirst(x: string, parts: seq<string>, sep: string)
    requires parts != []
    ensures Join([x + parts[0]] + parts[1..], sep) == x + Join(parts, sep)
  {
    if |parts| > 1 {
      var t := Join(parts[1..], sep);
      JoinCons(x + parts[0], parts[1..], sep);
      assert (x + parts[0]) + sep + t == x + (parts[0] + sep + t);
    }
  }

  // ---------------------------------------------------------------- order

  /** Ruby's `String#<=>`: lexicographic by character code, a proper prefix first. */
  predicate StrLess(a: string, b: string)
    decreases |a|
  {
    if a == [] then b != []
    else if b == [] then false
    else if a[0] != b[0] then a[0] < b[0]
    else StrLess(a[1..], b[1..])
  }

  lemma {:induction false} StrLessIrreflexive(a: string)
    ensures !StrLess(a, a)
    decreases |a|
  {
    if a != [] {
      StrLessIrreflexive(a[1..]);
    }
  }

  lemma {:induction false} StrLessTransitive(a: string, b: string, c: string)
    requires StrLess(a, b) && StrLess(b, c)
    ensures StrLess(a, c)
    decreases |a|
  {
    if a != [] && a[0] == b[0] && b[0] == c[0] {
      StrLessTransitive(a[1..], b[1..], c[1..]);
    }
  }

  lemma {:induction false} StrLessTotal(a: string, b: string)
    ensures a == b || StrLess(a, b) || StrLess(b, a)
    decreases |a|
  {
    if a != [] && b != [] && a[0] == b[0] {
      StrLessTotal(a[1..], b[1..]);
      if a[1..] == b[1..] {
        assert a == [a[0]] + a[1..] && b == [b[0]] + b[1..];
      }
    }
  }

  lemma StrLessAsymmetric(a: string, b: string)
    requires StrLess(a, b)
    ensures !StrLess(b, a)
  {
    if StrLess(b, a) {
      StrLessTransitive(a, b, a);
      StrLessIrreflexive(a);
    }
  }

  // ---------------------------------------------------------------- decimal

  function DigitChar(d: nat): (c: char)
    requires d < 10
    ensures IsDigit(c) && c as int - '0' as int == d
  {
    ('0' as int + d) as char
  }

  /** `n.to_s` for a natural number. */
  function NatToString(n: nat): (r: string)
    ensures r != [] && AllDigits(r)
    decreases n
  {
    if n < 10 then [DigitChar(n)] else NatToString(n / 10) + [DigitChar(n % 10)]
  }

  /** `i.to_s` for an integer. */
  function IntToString(i: int): (r: string)
    ensures r != []
    ensures i >= 0 ==> AllDigits(r)
    ensures i < 0 ==> r[0] == '-' && AllDigits(r[1..])
  {
    if i >= 0 then NatToString(i) else "-" + NatToString(-i)
  }

  /** The value of a digit string, most significant digit first. */
  function DecimalValue(s: string): (n: nat)
    requires AllDigits(s)
  {
    if s == [] then 0 else 10 * DecimalValue(s[..|s| - 1]) + (s[|s| - 1] as int - '0' as int)
  }

  lemma {:induction false} NatToStringRoundTrip(n: nat)
    ensures DecimalValue(NatToString(n)) == n
    decreases n
  {
    if n >= 10 {
      var s := NatToString(n);
      assert s[..|s| - 1] == NatToString(n / 10);
      NatToStringRoundTrip(n / 10);
    }
  }

  /** Different integers print differently. */
  lemma IntToStringInjective(a: int, b: int)
    requires IntToString(a) == IntToString(b)
    ensures a == b
  {
    if a >= 0 && b >= 0 {
      NatToStringRoundTrip(a);
      NatToStringRoundTrip(b);
    } else if a < 0 && b < 0 {
      assert NatToString(-a) == IntToString(a)[1..];
      NatToStringRoundTrip(-a);
      NatToStringRoundTrip(-b);
    }
  }

  /** `format('%04d', n)`: zero-padded to at least four digits. */
  function Pad4(n: nat): (r: string)
    ensures |r| >= 4 && AllDigits(r)
    ensures DecimalValue(r) == n
  {
    var s := NatToString(n);
    NatToStringRoundTrip(n);
    var z := seq(if |s| < 4 then 4 - |s| else 0, _ => '0');
    LeadingZeros(z, s);
    z + s
  }

  lemma {:induction false} LeadingZeros(z: string, s: string)
    requires AllDigits(s) && forall i :: 0 <= i < |z| ==> z[i] == '0'
    ensures AllDigits(z + s) && DecimalValue(z + s) == DecimalValue(s)
    decreases |s|
  {
    if s == [] {
      ZerosValue(z);
      assert z + s == z;
    } else {
      var t := z + s;
      assert t[..|t| - 1] == z + s[..|s| - 1];
      LeadingZeros(z, s[..|s| - 1]);
    }
  }

  lemma {:induction false} ZerosValue(z: string)
    requires forall i :: 0 <= i < |z| ==> z[i] == '0'
    ensures AllDigits(z) && DecimalValue(z) == 0
  {
    if z != [] { ZerosValue(z[..|z| - 1]); }
  }
}
