/**
 The Python string built-ins the age-range parser relies on, over `seq<char>`:
 `str.split(sep)` with a one-character separator, `str.strip()`,
 `str.isdigit()` (restricted to the ASCII digits), `int(s)` on a digit string
 and `str(n)` on a non-negative integer.
 */
module Text {

  import opened Seqs

  /** The characters Python's `str.isspace` accepts, i.e. those `str.strip()` removes. */
  predicate IsSpace(c: char) {
    || c == ' '
    || ('\t' <= c <= '\r')
    || ('\U{1C}' <= c <= '\U{1F}')
    || c == '\U{85}' || c == '\U{A0}' || c == '\U{1680}'
    || ('\U{2000}' <= c <= '\U{200A}')
    || c == '\U{2028}' || c == '\U{2029}' || c == '\U{202F}' || c == '\U{205F}'
    || c == '\U{3000}'
  }

  /** A string made only of whitespace (possibly empty). */
  predicate IsBlank(s: string) {
    forall i :: 0 <= i < |s| ==> IsSpace(s[i])
  }

  predicate IsDigit(c: char) {
    '0' <= c <= '9'
  }

  predicate AllDigits(s: string) {
    forall i :: 0 <= i < |s| ==> IsDigit(s[i])
  }

  /** `s.isdigit()`: false on the empty string. */
  predicate IsDigits(s: string) {
    |s| > 0 && AllDigits(s)
  }

  /** A decimal rendering without leading zeros, as `str(n)` produces. */
  predicate IsCanonical(s: string) {
    IsDigits(s) && (s[0] != '0' || |s| == 1)
  }

  // ---------------------------------------------------------------------------
  // split

  /** `s.split(sep)`: the maximal `sep`-free pieces of `s`, in order. */
  function Split(s: string, sep: char): (parts: seq<string>)
    ensures |parts| > 0
  {
    if |s| == 0 then [[]]
    else
      var rest := Split(s[1..], sep);
      if s[0] == sep then [[]] + rest
      else [[s[0]] + rest[0]] + rest[1..]
  }

  /** No piece contains the separator. */
  lemma {:induction false} SplitPiecesLackSeparator(s: string, sep: char)
    ensures forall i :: 0 <= i < |Split(s, sep)| ==> sep !in Split(s, sep)[i]
  {
    if |s| > 0 {
      SplitPiecesLackSeparator(s[1..], sep);
    }
  }

  /** `sep.join(parts)`, the inverse of `Split`. */
  function Join(parts: seq<string>, sep: char): string
    requires |parts| > 0
  {
    if |parts| == 1 then parts[0] else parts[0] + [sep] + Join(parts[1..], sep)
  }

  /** There is one more piece than there are separators. */
  lemma {:induction false} SplitCount(s: string, sep: char)
    ensures |Split(s, sep)| == multiset(s)[sep] + 1
  {
    if |s| > 0 {
      assert s == [s[0]] + s[1..];
      SplitCount(s[1..], sep);
    }
  }

  lemma JoinCons(p: string, ps: seq<string>, sep: char)
    requires |ps| > 0
    ensures Join([p] + ps, sep) == p + [sep] + Join(ps, sep)
  {
    assert ([p] + ps)[1..] == ps;
  }

  /** Prepending a character to the first piece prepends it to the join. */
  lemma JoinExtendsHead(c: char, parts: seq<string>, sep: char)
    requires |parts| > 1
    ensures Join([[c] + parts[0]] + parts[1..], sep) == [c] + Join(parts, sep)
  {
    var head, tail := [c] + parts[0], parts[1..];
    JoinCons(head, tail, sep);
    JoinCons(parts[0], tail, sep);
    assert [parts[0]] + tail == parts;
    assert head + [sep] + Join(tail, sep) == [c] + (parts[0] + [sep] + Join(tail, sep));
  }

  /** Joining the pieces back with the separator gives the original string. */
  lemma {:induction false} SplitThenJoin(s: string, sep: char)
    ensures Join(Split(s, sep), sep) == s
  {
    if |s| > 0 {
      var rest := Split(s[1..], sep);
      SplitThenJoin(s[1..], sep);
      if s[0] == sep {
        assert Split(s, sep) == [[]] + rest;
        JoinCons([], rest, sep);
        assert [] + [sep] + s[1..] == s;
      } else if |rest| == 1 {
        assert Split(s, sep) == [[s[0]] + rest[0]];
        assert [s[0]] + s[1..] == s;
      } else {
        assert Split(s, sep) == [[s[0]] + rest[0]] + rest[1..];
        JoinExtendsHead(s[0], rest, sep);
        assert [s[0]] + s[1..] == s;
      }
    }
  }

  /** Splitting at one occurrence of the separator splits the pieces there. */
  lemma {:induction false} SplitAround(a: string, sep: char, b: string)
    ensures Split(a + [sep] + b, sep) == Split(a, sep) + Split(b, sep)
  {
    var s := a + [sep] + b;
    if |a| == 0 {
      assert s[0] == sep && s[1..] == b;
      assert Split(s, sep) == [[]] + Split(b, sep);
    } else {
      assert s[0] == a[0] && s[1..] == a[1..] + [sep] + b;
      SplitAround(a[1..], sep, b);
      var rest, after := Split(a[1..], sep), Split(b, sep);
      assert Split(s[1..], sep) == rest + after;
      if a[0] != sep {
        assert (rest + after)[0] == rest[0];
        assert (rest + after)[1..] == rest[1..] + after;
      }
    }
  }

  /** A string without the separator is a single piece. */
  lemma {:induction false} SplitWithoutSeparator(s: string, sep: char)
    requires sep !in s
    ensures Split(s, sep) == [s]
  {
    if |s| > 0 {
      assert sep !in s[1..];
      SplitWithoutSeparator(s[1..], sep);
      assert [s[0]] + s[1..] == s;
    }
  }

  /** Splitting a join of separator-free pieces recovers the pieces. */
  lemma {:induction false} JoinThenSplit(parts: seq<string>, sep: char)
    requires |parts| > 0
    requires forall i :: 0 <= i < |parts| ==> sep !in parts[i]
    ensures Split(Join(parts, sep), sep) == parts
  {
    SplitWithoutSeparator(parts[0], sep);
    if |parts| > 1 {
      JoinThenSplit(parts[1..], sep);
      SplitAround(parts[0], sep, Join(parts[1..], sep));
    }
  }

  // ---------------------------------------------------------------------------
  // strip

  /** `s.lstrip()`: leading whitespace dropped. */
  function TrimStart(s: string): string {
    if |s| > 0 && IsSpace(s[0]) then TrimStart(s[1..]) else s
  }

  /** `s.rstrip()`: trailing whitespace dropped. */
  function TrimEnd(s: string): string {
    if |s| > 0 && IsSpace(s[|s| - 1]) then TrimEnd(s[..|s| - 1]) else s
  }

  /** `s.strip()`: whitespace dropped at both ends, nothing else touched. */
  function Strip(s: string): string {
    TrimEnd(TrimStart(s))
  }

  /** Neither end is whitespace: the shape of every result of `Strip`. */
  predicate IsTrimmed(s: string) {
    s == [] || (!IsSpace(s[0]) && !IsSpace(s[|s| - 1]))
  }

  /** `TrimStart` removes a whitespace prefix and stops at a non-space character. */
  lemma {:induction false} TrimStartSplits(s: string) returns (pre: string)
    ensures IsBlank(pre) && s == pre + TrimStart(s)
    ensures TrimStart(s) == [] || !IsSpace(TrimStart(s)[0])
  {
    if |s| > 0 && IsSpace(s[0]) {
      var pre' := TrimStartSplits(s[1..]);
      pre := [s[0]] + pre';
      assert [s[0]] + s[1..] == s;
    } else {
      pre := [];
    }
  }

  /** `TrimEnd` removes a whitespace suffix and stops at a non-space character. */
  lemma {:induction false} TrimEndSplits(s: string) returns (post: string)
    ensures IsBlank(post) && s == TrimEnd(s) + post
    ensures TrimEnd(s) == [] || !IsSpace(TrimEnd(s)[|TrimEnd(s)| - 1])
  {
    if |s| > 0 && IsSpace(s[|s| - 1]) {
      var post' := TrimEndSplits(s[..|s| - 1]);
      post := post' + [s[|s| - 1]];
      assert s[..|s| - 1] + [s[|s| - 1]] == s;
    } else {
      post := [];
    }
  }

  /** Every string is its stripped form surrounded by whitespace, and the
      stripped form has no whitespace at either end. */
  lemma StripDecompose(s: string) returns (pre: string, post: string)
    ensures IsBlank(pre) && IsBlank(post)
    ensures s == pre + Strip(s) + post
    ensures IsTrimmed(Strip(s))
  {
    var t := TrimStart(s);
    pre := TrimStartSplits(s);
    post := TrimEndSplits(t);
    var r := TrimEnd(t);
    assert s == pre + r + post;
    if r != [] {
      assert r[0] == t[0];
    }
  }

  /** Leading whitespace in front of a string that does not start with whitespace is dropped. */
  lemma {:induction false} TrimStartPadded(pre: string, t: string)
    requires IsBlank(pre)
    requires t == [] || !IsSpace(t[0])
    ensures TrimStart(pre + t) == t
  {
    if |pre| > 0 {
      assert (pre + t)[1..] == pre[1..] + t;
      TrimStartPadded(pre[1..], t);
    }
  }

  /** Trailing whitespace behind a string that does not end with whitespace is dropped. */
  lemma {:induction false} TrimEndPadded(t: string, post: string)
    requires IsBlank(post)
    requires t == [] || !IsSpace(t[|t| - 1])
    ensures TrimEnd(t + post) == t
  {
    if |post| > 0 {
      var post' := post[..|post| - 1];
      assert (t + post)[..|t + post| - 1] == t + post';
      TrimEndPadded(t, post');
    } else {
      assert t + post == t;
    }
  }

  /** `Strip` is characterised by its result: whatever whitespace surrounds a
      trimmed core, stripping yields exactly that core. */
  lemma StripPadded(pre: string, core: string, post: string)
    requires IsBlank(pre) && IsBlank(post) && IsTrimmed(core)
    ensures Strip(pre + core + post) == core
  {
    if core == [] {
      var blank := pre + post;
      assert pre + core + post == blank + [];
      BlankConcat(pre, post);
      TrimStartPadded(blank, []);
      assert TrimEnd([]) == [];
    } else {
      assert pre + core + post == pre + (core + post);
      TrimStartPadded(pre, core + post);
      TrimEndPadded(core, post);
    }
  }

  /** A string with no whitespace at either end is left as it is. */
  lemma StripOfTrimmed(s: string)
    requires IsTrimmed(s)
    ensures Strip(s) == s
  {
    StripPadded([], s, []);
    assert [] + s + [] == s;
  }

  /** A whitespace-only string strips to the empty string. */
  lemma StripOfBlank(s: string)
    requires IsBlank(s)
    ensures Strip(s) == []
  {
    StripPadded(s, [], []);
    assert s + [] + [] == s;
  }

  lemma BlankConcat(a: string, b: string)
    requires IsBlank(a) && IsBlank(b)
    ensures IsBlank(a + b)
  {
  }

  /** Extra whitespace around a string does not change what `Strip` returns. */
  lemma StripIgnoresPadding(pre: string, s: string, post: string)
    requires IsBlank(pre) && IsBlank(post)
    ensures Strip(pre + s + post) == Strip(s)
  {
    var p, q := StripDecompose(s);
    assert pre + s + post == (pre + p) + Strip(s) + (q + post);
    BlankConcat(pre, p);
    BlankConcat(q, post);
    StripPadded(pre + p, Strip(s), q + post);
  }

  // ---------------------------------------------------------------------------
  // int(s) and str(n)

  function DigitValue(c: char): nat
    requires IsDigit(c)
  {
    c as int - '0' as int
  }

  function DigitChar(d: nat): char
    requires d < 10
  {
    ('0' as int + d) as char
  }

  /** `int(s)` on a string of ASCII digits: the decimal value, read left to right. */
  function ToNat(s: string): nat
    requires AllDigits(s)
  {
    if |s| == 0 then 0 else 10 * ToNat(s[..|s| - 1]) + DigitValue(s[|s| - 1])
  }

  /** `str(n)` for `n >= 0`: a canonical decimal string that reads back as `n`. */
  function FromNat(n: nat): (s: string)
    ensures IsCanonical(s)
    ensures ToNat(s) == n
  {
    if n < 10 then [DigitChar(n)]
    else
      var init := FromNat(n / 10);
      var s := init + [DigitChar(n % 10)];
      assert s[..|s| - 1] == init;
      s
  }

  /** A canonical digit string other than "0" denotes a positive number. */
  lemma {:induction false} CanonicalPositive(s: string)
    requires IsDigits(s) && s[0] != '0'
    ensures ToNat(s) > 0
  {
    if |s| > 1 {
      CanonicalPositive(s[..|s| - 1]);
    }
  }

  /** The other half of the decimal round trip: reading a canonical string and
      rendering the value again reproduces the string. */
  lemma {:induction false} FromNatOfToNat(s: string)
    requires IsCanonical(s)
    ensures FromNat(ToNat(s)) == s
  {
    var init, last := s[..|s| - 1], s[|s| - 1];
    var d := DigitValue(last);
    assert DigitChar(d) == last;
    assert (10 * ToNat(init) + d) / 10 == ToNat(init) && (10 * ToNat(init) + d) % 10 == d;
    if |s| > 1 {
      assert init[0] == s[0];
      CanonicalPositive(init);
      FromNatOfToNat(init);
      assert FromNat(ToNat(s)) == init + [last];
      assert init + [last] == s;
    } else {
      assert ToNat(init) == 0;
      assert [last] == s;
    }
  }

  /** A leading zero does not change the value `int(s)` reads, so "020" and "20" agree. */
  lemma {:induction false} ToNatLeadingZero(s: string)
    requires AllDigits(s)
    ensures AllDigits(['0'] + s) && ToNat(['0'] + s) == ToNat(s)
  {
    var z := ['0'] + s;
    assert forall i :: 0 <= i < |z| ==> IsDigit(z[i]);
    if |s| > 0 {
      assert z[..|z| - 1] == ['0'] + s[..|s| - 1];
      ToNatLeadingZero(s[..|s| - 1]);
    }
  }
}
