/** String primitives the job board relies on, stated once: JavaScript's
    `trim`, `split` on one separator, ASCII case folding, substring search,
    decimal digits and numerals, and code-point lexicographic comparison. */
module Text {

  /** The characters ECMAScript's `String.prototype.trim` removes: the
      WhiteSpace set (TAB, VT, FF, SP, NBSP, ZWNBSP and the Zs category)
      and the LineTerminator set (LF, CR, LS, PS). */
  predicate IsSpace(c: char) {
    || c == '\t' || c == '\U{000B}' || c == '\U{000C}' || c == ' '
    || c == '\U{00A0}' || c == '\U{FEFF}' || c == '\U{1680}'
    || ('\U{2000}' <= c <= '\U{200A}')
    || c == '\U{202F}' || c == '\U{205F}' || c == '\U{3000}'
    || c == '\n' || c == '\r' || c == '\U{2028}' || c == '\U{2029}'
  }

  predicate AllSpace(s: string) {
    forall k :: 0 <= k < |s| ==> IsSpace(s[k])
  }

  /** The first position at or after `i` that is not white space, or `|s|`. */
  function SkipSpace(s: string, i: nat): (n: nat)
    requires i <= |s|
    ensures i <= n <= |s|
    ensures forall k :: i <= k < n ==> IsSpace(s[k])
    ensures n == |s| || !IsSpace(s[n])
    decreases |s| - i
  {
    if i < |s| && IsSpace(s[i]) then SkipSpace(s, i + 1) else i
  }

  /** The position just past the last character of `s[lo..j]` that is not
      white space, or `lo`. */
  function SkipSpaceBack(s: string, lo: nat, j: nat): (n: nat)
    requires lo <= j <= |s|
    ensures lo <= n <= j
    ensures forall k :: n <= k < j ==> IsSpace(s[k])
    ensures n == lo || !IsSpace(s[n - 1])
    decreases j
  {
    if j > lo && IsSpace(s[j - 1]) then SkipSpaceBack(s, lo, j - 1) else j
  }

  /** `r` is the infix of `s` at `i` with only white space around it. */
  ghost predicate TrimmedAt(s: string, r: string, i: int) {
    && 0 <= i <= |s| - |r| && r == s[i..i + |r|]
    && (forall k :: 0 <= k < i ==> IsSpace(s[k]))
    && (forall k :: i + |r| <= k < |s| ==> IsSpace(s[k]))
  }

  /** JavaScript's `s.trim()`:
      the infix of `s` left after removing white space at both ends. */
  function Trim(s: string): (r: string)
    ensures exists i :: TrimmedAt(s, r, i)
    ensures r == [] || (!IsSpace(r[0]) && !IsSpace(r[|r| - 1]))
  {
    var i := SkipSpace(s, 0);
    var j := SkipSpaceBack(s, i, |s|);
    assert TrimmedAt(s, s[i..j], i);
    s[i..j]
  }

  /** Trimming yields the empty string exactly when the input is all white space. */
  lemma TrimEmptyIffAllSpace(s: string)
    ensures Trim(s) == [] <==> AllSpace(s)
  {
    var r := Trim(s);
    var i :| TrimmedAt(s, r, i);
    if r != [] {
      assert r[0] == s[i];
    }
  }

  /** Position of the first `c` in `s` at or after `i`, or `|s|` when there is none. */
  function IndexFrom(s: string, c: char, i: nat): (r: nat)
    requires i <= |s|
    ensures i <= r <= |s|
    ensures forall k :: i <= k < r ==> s[k] != c
    ensures r < |s| ==> s[r] == c
    decreases |s| - i
  {
    if i == |s| || s[i] == c then i else IndexFrom(s, c, i + 1)
  }

  /** Position of the first `c` in `s`, or `|s|` when there is none. */
  function IndexOf(s: string, c: char): (r: nat)
    ensures r <= |s|
    ensures forall k :: 0 <= k < r ==> s[k] != c
    ensures r < |s| ==> s[r] == c
  {
    IndexFrom(s, c, 0)
  }

  /** Position of the last `c` in `s` before `j`, or -1 when there is none. */
  function LastBefore(s: string, c: char, j: nat): (r: int)
    requires j <= |s|
    ensures -1 <= r < j
    ensures forall k :: r < k < j ==> s[k] != c
    ensures 0 <= r ==> s[r] == c
  {
    if j == 0 then -1 else if s[j - 1] == c then j - 1 else LastBefore(s, c, j - 1)
  }

  /** Position of the last `c` in `s`, or -1 when there is none. */
  function LastIndexOf(s: string, c: char): (r: int)
    ensures -1 <= r < |s|
    ensures forall k :: r < k < |s| ==> s[k] != c
    ensures 0 <= r ==> s[r] == c
  {
    LastBefore(s, c, |s|)
  }

  /** Reassembles the pieces produced by `Split`. */
  function Join(parts: seq<string>, sep: char): string
    requires |parts| >= 1
  {
    if |parts| == 1 then parts[0] else parts[0] + [sep] + Join(parts[1..], sep)
  }

  /** The pieces of `s[i..]` between separators. */
  function SplitFrom(s: string, sep: char, i: nat): (parts: seq<string>)
    requires i <= |s|
    ensures |parts| >= 1
    decreases |s| - i
  {
    var j := IndexFrom(s, sep, i);
    if j == |s| then [s[i..]] else [s[i..j]] + SplitFrom(s, sep, j + 1)
  }

  /** JavaScript's `s.split(sep)` for a one-character separator. The empty
      string splits into one empty piece. */
  function Split(s: string, sep: char): (parts: seq<string>)
    ensures |parts| >= 1
  {
    SplitFrom(s, sep, 0)
  }

  /** No piece holds the separator. */
  lemma {:induction false} SplitFromNoSeparator(s: string, sep: char, i: nat)
    requires i <= |s|
    ensures forall k :: 0 <= k < |SplitFrom(s, sep, i)| ==> sep !in SplitFrom(s, sep, i)[k]
    decreases |s| - i
  {
    var j := IndexFrom(s, sep, i);
    var parts := SplitFrom(s, sep, i);
    if j < |s| {
      var rest := SplitFrom(s, sep, j + 1);
      SplitFromNoSeparator(s, sep, j + 1);
      assert parts == [s[i..j]] + rest;
      forall k | 0 <= k < |parts| ensures sep !in parts[k] {
        if k > 0 {
          assert parts[k] == rest[k - 1];
        }
      }
    }
  }

  lemma JoinCons(x: string, rest: seq<string>, sep: char)
    requires |rest| >= 1
    ensures Join([x] + rest, sep) == x + [sep] + Join(rest, sep)
  {
    assert ([x] + rest)[1..] == rest;
  }

  /** Joining the pieces gives back the text. */
  lemma {:induction false} SplitFromJoin(s: string, sep: char, i: nat)
    requires i <= |s|
    ensures Join(SplitFrom(s, sep, i), sep) == s[i..]
    decreases |s| - i
  {
    var j := IndexFrom(s, sep, i);
    var parts := SplitFrom(s, sep, i);
    if j < |s| {
      var rest := SplitFrom(s, sep, j + 1);
      calc {
        Join(parts, sep);
        { assert parts == [s[i..j]] + rest; }
        Join([s[i..j]] + rest, sep);
        { JoinCons(s[i..j], rest, sep); }
        s[i..j] + [sep] + Join(rest, sep);
        { SplitFromJoin(s, sep, j + 1); }
        s[i..j] + [sep] + s[j + 1..];
        { assert s[i..] == s[i..j] + [sep] + s[j + 1..]; }
        s[i..];
      }
    } else {
      assert parts == [s[i..]];
    }
  }

  /** `Split` is undone by `Join`, and no piece holds the separator. */
  lemma SplitJoin(s: string, sep: char)
    ensures forall k :: 0 <= k < |Split(s, sep)| ==> sep !in Split(s, sep)[k]
    ensures Join(Split(s, sep), sep) == s
  {
    SplitFromNoSeparator(s, sep, 0);
    SplitFromJoin(s, sep, 0);
    assert s[0..] == s;
  }

  /** The first piece is the text before the first separator, and there is
      more than one piece exactly when the separator occurs. */
  lemma SplitFirst(s: string, sep: char)
    ensures Split(s, sep)[0] == s[..IndexOf(s, sep)]
    ensures |Split(s, sep)| > 1 <==> sep in s
  {
    if IndexOf(s, sep) == |s| {
      assert s[0..] == s[..|s|];
      assert sep !in s;
    }
  }

  /** The last piece of `s[i..]` starts after the last separator, or at `i`
      when no separator follows `i`. */
  lemma {:induction false} SplitFromLast(s: string, sep: char, i: nat)
    requires i <= |s|
    ensures var parts := SplitFrom(s, sep, i); var l := LastIndexOf(s, sep);
      parts[|parts| - 1] == s[if l >= i then l + 1 else i..]
    decreases |s| - i
  {
    var j := IndexFrom(s, sep, i);
    var parts := SplitFrom(s, sep, i);
    if j < |s| {
      var rest := SplitFrom(s, sep, j + 1);
      assert parts == [s[i..j]] + rest;
      assert parts[|parts| - 1] == rest[|rest| - 1];
      SplitFromLast(s, sep, j + 1);
      assert LastIndexOf(s, sep) >= j;
    } else {
      assert parts == [s[i..]];
      assert LastIndexOf(s, sep) < i;
    }
  }

  /** The last piece is the text after the last separator. */
  lemma SplitLast(s: string, sep: char)
    ensures var parts := Split(s, sep); parts[|parts| - 1] == s[LastIndexOf(s, sep) + 1..]
  {
    SplitFromLast(s, sep, 0);
  }

  /** ASCII case folding, the folding SQLite's LIKE applies. */
  function LowerChar(c: char): char {
    if 'A' <= c <= 'Z' then (c as int + 32) as char else c
  }

  function Lower(s: string): (r: string)
    ensures |r| == |s|
    ensures forall k :: 0 <= k < |s| ==> r[k] == LowerChar(s[k])
  {
    seq(|s|, k requires 0 <= k < |s| => LowerChar(s[k]))
  }

  /** `p` occurs in `s` as a contiguous run. */
  ghost predicate IsInfix(p: string, s: string) {
    exists i :: InfixAt(p, s, i)
  }

  /** `p` occurs in `s` starting at position `i`. */
  ghost predicate InfixAt(p: string, s: string, i: int) {
    0 <= i <= |s| - |p| && s[i..i + |p|] == p
  }

  /** JavaScript's `s.includes(p)` and Python's `p in s`. */
  function Contains(s: string, p: string): (r: bool)
    ensures r <==> IsInfix(p, s)
  {
    if p <= s then
      assert InfixAt(p, s, 0);
      true
    else if s == [] then
      false
    else
      InfixTail(s, p);
      Contains(s[1..], p)
  }

  /** Past a non-matching first position, `p` occurs in `s` iff it occurs in `s[1..]`. */
  lemma InfixTail(s: string, p: string)
    requires s != [] && !(p <= s)
    ensures IsInfix(p, s) <==> IsInfix(p, s[1..])
  {
    if IsInfix(p, s[1..]) {
      var i :| InfixAt(p, s[1..], i);
      assert s[i + 1..i + 1 + |p|] == s[1..][i..i + |p|];
      assert InfixAt(p, s, i + 1);
    }
    if IsInfix(p, s) {
      var i :| InfixAt(p, s, i);
      assert s[1..][i - 1..i - 1 + |p|] == s[i..i + |p|];
      assert InfixAt(p, s[1..], i - 1);
    }
  }

  predicate IsDigit(c: char) {
    '0' <= c <= '9'
  }

  predicate AllDigits(s: string) {
    forall k :: 0 <= k < |s| ==> IsDigit(s[k])
  }

  function DigitValue(c: char): nat
    requires IsDigit(c)
  {
    c as int - '0' as int
  }

  function DigitChar(d: nat): (c: char)
    requires d < 10
    ensures IsDigit(c) && DigitValue(c) == d
  {
    ('0' as int + d) as char
  }

  /** The base-10 value of a numeral; leading zeros add nothing. */
  function DecimalValue(ds: string): nat
    requires AllDigits(ds)
  {
    if ds == [] then 0 else 10 * DecimalValue(ds[..|ds| - 1]) + DigitValue(ds[|ds| - 1])
  }

  /** Keeps the decimal digits of `s` in order: the concatenation of the
      runs that the regular expression `/\d+/g` finds. */
  function Digits(s: string): (r: string)
    ensures AllDigits(r)
    ensures |r| <= |s|
  {
    if s == [] then []
    else
      var rest := Digits(s[1..]);
      if IsDigit(s[0]) then [s[0]] + rest else rest
  }

  /** The digits kept are exactly the digits that occur in `s`. */
  lemma {:induction false} DigitsMembers(s: string)
    ensures forall c :: c in Digits(s) <==> c in s && IsDigit(c)
    decreases |s|
  {
    if s != [] {
      DigitsMembers(s[1..]);
      assert forall c :: c in s <==> c == s[0] || c in s[1..];
    }
  }

  /** A numeral is its own digit sequence. */
  lemma {:induction false} DigitsOfNumeral(ds: string)
    requires AllDigits(ds)
    ensures Digits(ds) == ds
  {
    if ds != [] {
      DigitsOfNumeral(ds[1..]);
      assert ds == [ds[0]] + ds[1..];
    }
  }

  /** A numeral is worth zero exactly when every digit is '0'. */
  lemma {:induction false} DecimalValueZero(ds: string)
    requires AllDigits(ds)
    ensures DecimalValue(ds) == 0 <==> forall c :: c in ds ==> c == '0'
  {
    if ds != [] {
      var init := ds[..|ds| - 1];
      var last := ds[|ds| - 1];
      DecimalValueZero(init);
      assert ds == init + [last];
      if DecimalValue(ds) == 0 {
        assert DecimalValue(init) == 0 && DigitValue(last) == 0;
        forall c | c in ds ensures c == '0' {
          assert c in init || c == last;
        }
      } else {
        assert DecimalValue(init) != 0 || DigitValue(last) != 0;
        if DecimalValue(init) != 0 {
          var c :| c in init && c != '0';
          assert c in ds;
        } else {
          assert last != '0' && last in ds;
        }
      }
    }
  }

  /** Length of the run of digits `s` starts with. */
  function LeadingDigits(s: string): (n: nat)
    ensures n <= |s|
    ensures AllDigits(s[..n])
    ensures n == |s| || !IsDigit(s[n])
  {
    if s != [] && IsDigit(s[0]) then
      var n := 1 + LeadingDigits(s[1..]);
      assert s[..n] == [s[0]] + s[1..][..n - 1];
      n
    else 0
  }

  /** A numeral followed by text that opens with a non-digit: the leading
      run is exactly the numeral. */
  lemma {:induction false} LeadingDigitsOfNumeral(ds: string, t: string)
    requires AllDigits(ds)
    requires t != [] && !IsDigit(t[0])
    ensures LeadingDigits(ds + t) == |ds|
  {
    if ds != [] {
      LeadingDigitsOfNumeral(ds[1..], t);
      assert (ds + t)[1..] == ds[1..] + t;
    } else {
      assert ds + t == t;
    }
  }

  /** The digits of a concatenation are the digits of each part in turn. */
  lemma {:induction false} DigitsAppend(a: string, b: string)
    ensures Digits(a + b) == Digits(a) + Digits(b)
    decreases |a|
  {
    if a == [] {
      assert a + b == b;
    } else {
      var ab := a + b;
      assert ab[0] == a[0] && ab[1..] == a[1..] + b;
      DigitsAppend(a[1..], b);
      var head := if IsDigit(a[0]) then [a[0]] else [];
      assert Digits(ab) == head + Digits(ab[1..]);
      assert Digits(a) == head + Digits(a[1..]);
    }
  }

  /** The numeral JavaScript writes for a non-negative integer (template
      interpolation `${n}`): digits only, no leading zero, and it reads back
      as `n`. */
  function NatToString(n: nat): (r: string)
    ensures |r| >= 1 && AllDigits(r)
    ensures r[0] == '0' ==> r == "0"
    ensures DecimalValue(r) == n
  {
    if n < 10 then [DigitChar(n)]
    else
      var r := NatToString(n / 10) + [DigitChar(n % 10)];
      assert r[..|r| - 1] == NatToString(n / 10);
      r
  }

  /** Code-point comparison: negative, zero or positive like `localeCompare`. */
  function LexCompare(a: string, b: string): (r: int)
    ensures -1 <= r <= 1
  {
    if a == [] && b == [] then 0
    else if a == [] then -1
    else if b == [] then 1
    else if a[0] < b[0] then -1
    else if a[0] > b[0] then 1
    else LexCompare(a[1..], b[1..])
  }

  lemma {:induction false} LexCompareZeroIffEqual(a: string, b: string)
    ensures LexCompare(a, b) == 0 <==> a == b
  {
    if a != [] && b != [] && a[0] == b[0] {
      LexCompareZeroIffEqual(a[1..], b[1..]);
      assert a == [a[0]] + a[1..] && b == [b[0]] + b[1..];
    }
  }

  lemma {:induction false} LexCompareAntisymmetric(a: string, b: string)
    ensures LexCompare(a, b) == -LexCompare(b, a)
  {
    if a != [] && b != [] && a[0] == b[0] {
      LexCompareAntisymmetric(a[1..], b[1..]);
    }
  }

  lemma {:induction false} LexCompareTransitive(a: string, b: string, c: string)
    requires LexCompare(a, b) <= 0 && LexCompare(b, c) <= 0
    ensures LexCompare(a, c) <= 0
  {
    if a != [] && b != [] && c != [] && a[0] == b[0] && b[0] == c[0] {
      LexCompareTransitive(a[1..], b[1..], c[1..]);
    }
  }
}
