/** Copying, C strings and number conversion (src/kstring.c). A C string is the part
    of a buffer before its first NUL. */
module KString {
  import opened Basics

  // ----- copying

  /** The element that a forward copy finds for its k-th one when the destination starts
      `gap` places into the source: the first `gap` elements over and over. */
  function Repeated(k: nat, gap: nat): (r: nat)
    requires gap > 0
    ensures r <= k && r < gap
  {
    if k < gap then k else Repeated(k - gap, gap)
  }

  /** The range of length n at d starts inside the one at s. */
  predicate Overtakes(d: nat, s: nat, n: nat) {
    s < d < s + n
  }

  /** Copies forward, one element at a time: the source as it was, except that a source
      which the copy overwrites before reading it repeats its start. */
  method MemCpy<T>(dst: array<T>, d: nat, src: array<T>, s: nat, n: nat)
    requires d + n <= dst.Length && s + n <= src.Length
    modifies dst
    ensures forall i :: 0 <= i < dst.Length && !(d <= i < d + n) ==> dst[i] == old(dst[i])
    ensures dst != src || !Overtakes(d, s, n) ==>
              forall i :: d <= i < d + n ==> dst[i] == old(src[s + i - d])
    ensures dst == src && Overtakes(d, s, n) ==>
              forall i :: d <= i < d + n ==> dst[i] == old(src[s + Repeated(i - d, d - s)])
  {
    for k := 0 to n
      invariant forall i :: 0 <= i < dst.Length && !(d <= i < d + k) ==> dst[i] == old(dst[i])
      invariant dst != src ==> forall i :: 0 <= i < src.Length ==> src[i] == old(src[i])
      invariant dst != src || !Overtakes(d, s, n) ==>
                  forall i :: d <= i < d + k ==> dst[i] == old(src[s + i - d])
      invariant dst == src && Overtakes(d, s, n) ==>
                  forall i :: d <= i < d + k ==> dst[i] == old(src[s + Repeated(i - d, d - s)])
    {
      dst[d + k] := src[s + k];
    }
  }

  /** Copies within one buffer, whatever the overlap. */
  method MemMove<T>(a: array<T>, d: nat, s: nat, n: nat)
    requires d + n <= a.Length && s + n <= a.Length
    modifies a
    ensures forall i :: 0 <= i < a.Length ==>
              a[i] == if d <= i < d + n then old(a[s + i - d]) else old(a[i])
  {
    if d == s || n == 0 {
      return;
    }
    if d < s {
      MemCpy(a, d, a, s, n);
      return;
    }
    var k := n;
    while k > 0
      invariant 0 <= k <= n
      invariant forall i :: 0 <= i < a.Length ==>
                  a[i] == if d + k <= i < d + n then old(a[s + i - d]) else old(a[i])
    {
      a[d + k - 1] := a[s + k - 1];
      k := k - 1;
    }
  }

  // ----- C strings

  /** The string at the start of a buffer. */
  function Str(s: seq<char>): (r: seq<char>)
    ensures |r| <= |s| && r == s[..|r|]
    ensures forall i :: 0 <= i < |r| ==> r[i] != '\0'
    ensures |r| < |s| ==> s[|r|] == '\0'
  {
    if s == [] || s[0] == '\0' then [] else [s[0]] + Str(s[1..])
  }

  /** The buffer holds a NUL. */
  predicate Terminated(s: seq<char>) {
    '\0' in s
  }

  lemma StrIs(s: seq<char>, n: nat)
    requires n < |s| && s[n] == '\0' && forall i :: 0 <= i < n ==> s[i] != '\0'
    ensures Str(s) == s[..n]
  {
    hide Str;
    var r := Str(s);
    assert forall i :: 0 <= i < |r| ==> s[i] == r[i] != '\0';
  }

  method StrLen(str: array<char>, at: nat) returns (len: nat)
    requires at <= str.Length && Terminated(str[at..])
    ensures len == |Str(str[at..])|
  {
    len := 0;
    ghost var k :| 0 <= k < |str[at..]| && str[at..][k] == '\0';
    while str[at + len] != '\0'
      invariant len <= k
      invariant forall i :: 0 <= i < len ==> str[at..][i] != '\0'
      decreases k - len
    {
      len := len + 1;
    }
    StrIs(str[at..], len);
  }

  /** Lexicographic order of strings, a proper prefix being less. */
  predicate Less(a: seq<char>, b: seq<char>) {
    b != [] && (a == [] || a[0] < b[0] || (a[0] == b[0] && Less(a[1..], b[1..])))
  }

  lemma {:induction false} LessAfterPrefix(p: seq<char>, a: seq<char>, b: seq<char>)
    ensures Less(p + a, p + b) <==> Less(a, b)
  {
    if p == [] {
      assert p + a == a && p + b == b;
    } else {
      assert (p + a)[1..] == p[1..] + a && (p + b)[1..] == p[1..] + b;
      LessAfterPrefix(p[1..], a, b);
    }
  }

  /** The character that a pointer `i` places into a string sees, NUL at its end. */
  function CharAt(s: seq<char>, i: nat): char {
    if i < |s| then s[i] else '\0'
  }

  /** Two strings that agree on their first i characters, at the place where they
      differ or both end. */
  lemma ComparedAt(a: seq<char>, b: seq<char>, i: nat)
    requires i <= |a| && i <= |b| && a[..i] == b[..i]
    requires forall k :: 0 <= k < |a| ==> a[k] != '\0'
    requires forall k :: 0 <= k < |b| ==> b[k] != '\0'
    requires CharAt(a, i) == '\0' || CharAt(a, i) != CharAt(b, i)
    ensures CharAt(a, i) == CharAt(b, i) <==> a == b
    ensures CharAt(a, i) < CharAt(b, i) <==> Less(a, b)
  {
    assert a == a[..i] + a[i..] && b == b[..i] + b[i..];
    LessAfterPrefix(a[..i], a[i..], b[i..]);
  }

  /** The difference of the first characters that differ; 0 exactly for equal strings,
      negative exactly when the first is less. */
  method StrCmp(lhs: array<char>, l: nat, rhs: array<char>, r: nat) returns (diff: int)
    requires l <= lhs.Length && Terminated(lhs[l..])
    requires r <= rhs.Length && Terminated(rhs[r..])
    ensures diff == 0 <==> Str(lhs[l..]) == Str(rhs[r..])
    ensures diff < 0 <==> Less(Str(lhs[l..]), Str(rhs[r..]))
  {
    ghost var a, b := Str(lhs[l..]), Str(rhs[r..]);
    StrEnds(lhs[l..]);
    StrEnds(rhs[r..]);
    hide Str, Less, Terminated;
    var i := 0;
    while lhs[l + i] != '\0' && lhs[l + i] == rhs[r + i]
      invariant i <= |a| && i <= |b| && a[..i] == b[..i]
      decreases |a| - i
    {
      assert CharAt(a, i) == lhs[l + i] && CharAt(b, i) == rhs[r + i];
      assert a[..i + 1] == a[..i] + [a[i]] && b[..i + 1] == b[..i] + [b[i]];
      i := i + 1;
    }
    assert CharAt(a, i) == lhs[l + i] && CharAt(b, i) == rhs[r + i];
    ComparedAt(a, b, i);
    diff := lhs[l + i] as int - rhs[r + i] as int;
  }

  lemma {:induction false} StrEnds(s: seq<char>)
    requires Terminated(s)
    ensures |Str(s)| < |s|
  {
    if s[0] != '\0' {
      StrEnds(s[1..]);
    }
  }

  // ----- numbers

  predicate IsDigit(c: char) {
    '0' <= c <= '9'
  }

  predicate AllDigits(s: seq<char>) {
    forall c <- s :: IsDigit(c)
  }

  function DigitValue(c: char): nat
    requires IsDigit(c)
  {
    c as int - '0' as int
  }

  /** The value of a decimal numeral. */
  function Value(s: seq<char>): nat
    requires AllDigits(s)
  {
    if s == [] then 0 else 10 * Value(s[..|s| - 1]) + DigitValue(s[|s| - 1])
  }

  /** The value for the caller, when both pointers are there (`str` None being the null
      string, `store` whether there is a place for the value) and the string is one of
      digits and not empty: its value modulo 2^64. Otherwise nothing is stored. */
  method ParseU64(str: Option<seq<char>>, store: bool) returns (stored: Option<u64>)
    requires str.Some? ==> '\0' !in str.value
    ensures stored.Some? <==> store && str.Some? && str.value != [] && AllDigits(str.value)
    ensures stored.Some? ==> stored.value == Value(str.value) % 0x1_0000_0000_0000_0000
  {
    if str.None? || str.value == [] || !store {
      return None;
    }
    var s := str.value;
    var out: u64, i := 0, 0;
    while i < |s|
      invariant i <= |s| && AllDigits(s[..i])
      invariant out == Value(s[..i]) % 0x1_0000_0000_0000_0000
    {
      if s[i] < '0' || s[i] > '9' {
        assert !IsDigit(s[i]);
        return None;
      }
      assert s[..i + 1][..i] == s[..i];
      ShiftedValue(Value(s[..i]), s[i] as int - '0' as int);
      out := (out * 10 + (s[i] as int - '0' as int)) % 0x1_0000_0000_0000_0000;
      i := i + 1;
    }
    assert s[..i] == s;
    return Some(out);
  }

  lemma ShiftedValue(v: nat, digit: nat)
    ensures (v % 0x1_0000_0000_0000_0000 * 10 + digit) % 0x1_0000_0000_0000_0000
         == (10 * v + digit) % 0x1_0000_0000_0000_0000
  {
    var q, r := v / 0x1_0000_0000_0000_0000, v % 0x1_0000_0000_0000_0000;
    assert 10 * v + digit == (r * 10 + digit) + 0x1_0000_0000_0000_0000 * (10 * q);
    AddedMultiple(r * 10 + digit, 10 * q);
  }

  lemma {:induction false} AddedMultiple(x: nat, k: nat)
    ensures (x + 0x1_0000_0000_0000_0000 * k) % 0x1_0000_0000_0000_0000 == x % 0x1_0000_0000_0000_0000
  {
    if k > 0 {
      AddedMultiple(x, k - 1);
      AddedOnce(x + 0x1_0000_0000_0000_0000 * (k - 1));
    }
  }

  lemma AddedOnce(x: nat)
    ensures (x + 0x1_0000_0000_0000_0000) % 0x1_0000_0000_0000_0000 == x % 0x1_0000_0000_0000_0000
  {
  }

  // ----- formatting

  const DIGITS: seq<char> := "0123456789ABCDEF"

  /** The two bases of the source: both digit tables are prefixes of DIGITS. */
  predicate Base(base: nat) {
    base == 10 || base == 16
  }

  function Quotient(v: nat, base: nat): nat
    requires Base(base)
  {
    if base == 10 then v / 10 else v / 16
  }

  function LastDigit(v: nat, base: nat): char
    requires Base(base)
  {
    DIGITS[if base == 10 then v % 10 else v % 16]
  }

  /** The numeral of v, without leading zeros. */
  function Numeral(v: nat, base: nat): (s: seq<char>)
    requires Base(base)
    ensures s != []
    decreases v
  {
    if v < base then [LastDigit(v, base)]
    else Numeral(Quotient(v, base), base) + [LastDigit(v, base)]
  }

  function Power(base: nat, k: nat): nat
    requires Base(base)
  {
    if k == 0 then 1 else if base == 10 then 10 * Power(base, k - 1) else 16 * Power(base, k - 1)
  }

  lemma {:induction false} NumeralLength(v: nat, base: nat, k: nat)
    requires Base(base) && k > 0 && v < Power(base, k)
    ensures |Numeral(v, base)| <= k
  {
    if k == 1 {
      assert Power(base, 0) == 1;
    } else if v >= base {
      NumeralLength(Quotient(v, base), base, k - 1);
    }
  }

  /** Twenty digits are enough for every 64-bit value, so the scratch array of 32
      never fills. */
  lemma NumeralFits(v: u64, base: nat)
    requires Base(base)
    ensures |Numeral(v, base)| <= 20
  {
    assert Power(10, 5) == 100000 && Power(16, 5) == 0x10_0000;
    assert Power(10, 10) == 1_00000_00000 && Power(16, 10) == 0x100_0000_0000;
    assert Power(10, 15) == 1_00000_00000_00000 && Power(16, 15) == 0x1000_0000_0000_0000;
    NumeralLength(v, base, 20);
  }

  lemma {:induction false} NumeralDigits(v: nat)
    ensures AllDigits(Numeral(v, 10))
    ensures Value(Numeral(v, 10)) == v
    decreases v
  {
    var s := Numeral(v, 10);
    if v < 10 {
      assert s[..0] == [];
    } else {
      NumeralDigits(v / 10);
      assert s[..|s| - 1] == Numeral(v / 10, 10);
    }
    DecimalDigit(v % 10);
  }

  /** The value of a digit of a hexadecimal numeral, None for other characters. */
  function HexDigit(c: char): Option<nat> {
    if '0' <= c <= '9' then Some(c as nat - '0' as nat)
    else if 'A' <= c <= 'F' then Some(10 + (c as nat - 'A' as nat))
    else None
  }

  predicate HexDigits(s: seq<char>) {
    forall i :: 0 <= i < |s| ==> HexDigit(s[i]).Some?
  }

  function HexValue(s: seq<char>): nat
    requires HexDigits(s)
  {
    if s == [] then 0 else 16 * HexValue(s[..|s| - 1]) + HexDigit(s[|s| - 1]).value
  }

  /** The hexadecimal numeral of a number has its value, and no leading zero but for 0. */
  lemma {:induction false} NumeralHex(v: nat)
    ensures HexDigits(Numeral(v, 16)) && HexValue(Numeral(v, 16)) == v
    ensures v > 0 ==> Numeral(v, 16)[0] != '0'
    decreases v
  {
    var s := Numeral(v, 16);
    SixteenDigits(v % 16);
    if v < 16 {
      assert s[..0] == [];
    } else {
      NumeralHex(v / 16);
      assert s[..|s| - 1] == Numeral(v / 16, 16);
    }
  }

  lemma SixteenDigits(d: nat)
    requires d < 16
    ensures HexDigit(DIGITS[d]) == Some(d) && (d > 0 ==> DIGITS[d] != '0')
  {
  }

  lemma DecimalDigit(d: nat)
    requires d < 10
    ensures IsDigit(DIGITS[d]) && DigitValue(DIGITS[d]) == d
  {
  }

  /** Formatting undoes parsing on every numeral without leading zeros. */
  lemma {:induction false} NumeralOfValue(s: seq<char>)
    requires s != [] && AllDigits(s) && (|s| == 1 || s[0] != '0')
    ensures Numeral(Value(s), 10) == s
    ensures |s| > 1 ==> Value(s) >= 10
    decreases |s|
  {
    var front, last := s[..|s| - 1], s[|s| - 1];
    assert s == front + [last];
    DecimalDigit(DigitValue(last));
    TensAndUnits(Value(front), DigitValue(last));
    if |s| == 1 {
      assert front == [];
    } else {
      assert front[0] == s[0];
      FirstDigit(front);
      NumeralOfValue(front);
    }
  }

  lemma TensAndUnits(tens: nat, units: nat)
    requires units < 10
    ensures (10 * tens + units) / 10 == tens && (10 * tens + units) % 10 == units
  {
  }

  lemma {:induction false} FirstDigit(s: seq<char>)
    requires s != [] && AllDigits(s) && s[0] != '0'
    ensures Value(s) > 0
  {
    if |s| > 1 {
      FirstDigit(s[..|s| - 1]);
    } else {
      assert s[..0] == [];
    }
  }

  /** What formatting into a buffer of 21 bytes or more and parsing gives back. */
  lemma FormatParse(v: u64)
    ensures AllDigits(Numeral(v, 10)) && 0 < |Numeral(v, 10)| < 21
    ensures Value(Numeral(v, 10)) % 0x1_0000_0000_0000_0000 == v
  {
    NumeralDigits(v);
    NumeralFits(v, 10);
  }

  /** The digits of v that are not yet in the scratch array. */
  ghost function Rest(v: nat, base: nat): seq<char>
    requires Base(base)
  {
    if v == 0 then [] else Numeral(v, base)
  }

  lemma RestStep(v: nat, base: nat)
    requires Base(base) && v > 0
    ensures Rest(v, base) == Rest(Quotient(v, base), base) + [LastDigit(v, base)]
    ensures Quotient(v, base) < v
  {
    hide LastDigit;
  }

  /** Writes the longest leading part of the numeral that fits with its NUL, and
      nothing after it. */
  method ConvertU64(buffer: array<char>, size: nat, v: u64, base: nat)
    requires Base(base) && size <= buffer.Length
    modifies buffer
    ensures size == 0 ==> forall i :: 0 <= i < buffer.Length ==> buffer[i] == old(buffer[i])
    ensures size > 0 ==>
              var s := Numeral(v, base);
              var n := if |s| < size then |s| else size - 1;
              && (forall i :: 0 <= i < n ==> buffer[i] == s[i])
              && buffer[n] == '\0'
              && (forall i :: n < i < buffer.Length ==> buffer[i] == old(buffer[i]))
  {
    if size == 0 {
      return;
    }
    if v == 0 {
      if size > 1 {
        buffer[0] := '0';
        buffer[1] := '\0';
      } else {
        buffer[0] := '\0';
      }
      return;
    }
    NumeralFits(v, base);
    var tmp := new char[32];
    var pos := ScratchDigits(tmp, v, base);
    CopyReversed(buffer, size, tmp, pos, Numeral(v, base));
  }

  /** The first loop: the digits, last one first, in a scratch array that they do not
      fill. */
  method ScratchDigits(tmp: array<char>, v: u64, base: nat) returns (pos: nat)
    requires Base(base) && v > 0 && |Numeral(v, base)| <= tmp.Length
    modifies tmp
    ensures pos == |Numeral(v, base)|
    ensures forall j :: 0 <= j < pos ==> tmp[j] == Numeral(v, base)[pos - 1 - j]
  {
    hide Numeral, Quotient, LastDigit;
    ghost var s := Numeral(v, base);
    var value := v;
    pos := 0;
    while value > 0 && pos < tmp.Length
      invariant pos + |Rest(value, base)| == |s| && Rest(value, base) == s[..|s| - pos]
      invariant forall j :: 0 <= j < pos ==> tmp[j] == s[|s| - 1 - j]
      decreases value
    {
      RestStep(value, base);
      tmp[pos] := LastDigit(value, base);
      LastOf(Rest(Quotient(value, base), base), LastDigit(value, base), s, |s| - pos);
      pos := pos + 1;
      value := Quotient(value, base);
    }
  }

  /** The parts of a front of s. */
  lemma LastOf(front: seq<char>, last: char, s: seq<char>, n: nat)
    requires n <= |s| && front + [last] == s[..n]
    ensures n == |front| + 1 && front == s[..n - 1] && last == s[n - 1]
  {
    assert (front + [last])[..|front|] == front && (front + [last])[|front|] == last;
    assert s[..n][..n - 1] == s[..n - 1] && s[..n][n - 1] == s[n - 1];
  }

  /** The second loop: the scratch digits, last one first. */
  method CopyReversed(buffer: array<char>, size: nat, tmp: array<char>, count: nat, ghost s: seq<char>)
    requires 0 < size <= buffer.Length && tmp != buffer && count == |s| <= tmp.Length
    requires forall j :: 0 <= j < count ==> tmp[j] == s[|s| - 1 - j]
    modifies buffer
    ensures var n := if |s| < size then |s| else size - 1;
            && (forall i :: 0 <= i < n ==> buffer[i] == s[i])
            && buffer[n] == '\0'
            && (forall i :: n < i < buffer.Length ==> buffer[i] == old(buffer[i]))
  {
    var pos, out := count, 0;
    while pos > 0 && out + 1 < size
      invariant 0 <= pos && out < size && out + pos == |s|
      invariant forall i :: 0 <= i < out ==> buffer[i] == s[i]
      invariant forall i :: out <= i < buffer.Length ==> buffer[i] == old(buffer[i])
    {
      pos := pos - 1;
      buffer[out] := tmp[pos];
      out := out + 1;
    }
    buffer[out] := '\0';
  }
}
