/** String helpers with the meaning JavaScript's `trim`, `split`, `toUpperCase`
    and the regex class `\s` give them, restricted to ASCII. */
module Text {

  /** ASCII whitespace: space, tab, line feed, carriage return, vertical tab, form feed. */
  predicate IsSpace(c: char) {
    c == ' ' || c == '\t' || c == '\n' || c == '\r' || c == '\U{000B}' || c == '\U{000C}'
  }

  /** `!s.trim()` in JavaScript: the string is empty or only whitespace. */
  predicate AllSpace(s: string) {
    forall i :: 0 <= i < |s| ==> IsSpace(s[i])
  }

  ghost predicate NoSpace(s: string) {
    forall i :: 0 <= i < |s| ==> !IsSpace(s[i])
  }

  /** The index of the first non-whitespace character of `s` at or after `i`, or `|s|`
      when there is none. */
  function SkipSpace(s: string, i: nat): (k: nat)
    requires i <= |s|
    ensures i <= k <= |s|
    ensures forall j :: i <= j < k ==> IsSpace(s[j])
    ensures k < |s| ==> !IsSpace(s[k])
    decreases |s| - i
  {
    if i < |s| && IsSpace(s[i]) then SkipSpace(s, i + 1) else i
  }

  /** The index just past the last non-whitespace character of `s[lo..j]`, or `lo` when
      there is none. */
  function SkipSpaceBack(s: string, lo: nat, j: nat): (k: nat)
    requires lo <= j <= |s|
    ensures lo <= k <= j
    ensures forall m :: k <= m < j ==> IsSpace(s[m])
    ensures lo < k ==> !IsSpace(s[k - 1])
  {
    if lo < j && IsSpace(s[j - 1]) then SkipSpaceBack(s, lo, j - 1) else j
  }

  /** `r` is a slice of `s` with nothing but whitespace before and after it. */
  ghost predicate Stripped(s: string, r: string) {
    exists i :: 0 <= i <= |s| - |r| && r == s[i..i + |r|] && AllSpace(s[..i]) && AllSpace(s[i + |r|..])
  }

  /** `s.trim()`: the slice of `s` between its leading and trailing whitespace (see
      `TrimIsSlice`). */
  function Trim(s: string): (r: string)
    ensures r == [] <==> AllSpace(s)
    ensures r != [] ==> !IsSpace(r[0]) && !IsSpace(r[|r| - 1])
  {
    var a := SkipSpace(s, 0);
    var b := SkipSpaceBack(s, a, |s|);
    assert a < |s| ==> a < b && !AllSpace(s);
    s[a..b]
  }

  /** What `trim` keeps is a slice of its input with only whitespace around it. With
      `Trim`'s own contract (the slice neither starts nor ends with whitespace), this
      determines the result. */
  lemma TrimIsSlice(s: string)
    ensures Stripped(s, Trim(s))
  {
    var a := SkipSpace(s, 0);
    var b := SkipSpaceBack(s, a, |s|);
    assert Trim(s) == s[a..b];
    assert AllSpace(s[..a]);
    assert AllSpace(s[b..]) by {
      forall m | 0 <= m < |s| - b ensures IsSpace(s[b..][m]) {
        assert s[b..][m] == s[b + m];
      }
    }
  }

  /** A string that neither starts nor ends with whitespace is its own trim. */
  lemma TrimUnpadded(s: string)
    requires s == [] || (!IsSpace(s[0]) && !IsSpace(s[|s| - 1]))
    ensures Trim(s) == s
  {
    if s != [] {
      assert SkipSpace(s, 0) == 0;
      assert s[0..|s|] == s;
    }
  }

  /** Padding a non-empty unpadded string with whitespace on both sides does not change
      its trim. */
  lemma TrimPadded(pre: string, t: string, post: string)
    requires AllSpace(pre) && AllSpace(post)
    requires t != [] && !IsSpace(t[0]) && !IsSpace(t[|t| - 1])
    ensures Trim(pre + t + post) == t
  {
    var s := pre + t + post;
    var a, b := |pre|, |pre| + |t|;
    assert !IsSpace(s[a]) && !IsSpace(s[b - 1]);
    assert forall j :: 0 <= j < a ==> IsSpace(s[j]) by {
      forall j | 0 <= j < a ensures IsSpace(s[j]) {
        assert s[j] == pre[j];
      }
    }
    assert forall m :: b <= m < |s| ==> IsSpace(s[m]) by {
      forall m | b <= m < |s| ensures IsSpace(s[m]) {
        assert s[m] == post[m - b];
      }
    }
    assert SkipSpace(s, 0) == a;
    assert SkipSpaceBack(s, a, |s|) == b;
    assert s[a..b] == t;
  }

  /** One leading whitespace character before an unpadded string is all `trim` drops. */
  lemma TrimLeadingSpace(c: char, t: string)
    requires IsSpace(c) && t != [] && !IsSpace(t[0]) && !IsSpace(t[|t| - 1])
    ensures Trim([c] + t) == t
  {
    TrimPadded([c], t, []);
    assert [c] + t + [] == [c] + t;
  }

  /** ASCII `toUpperCase` of one character; every other character is left alone. */
  function UpperChar(c: char): (r: char)
    ensures 'a' <= c <= 'z' ==> r as int == c as int - 32
    ensures !('a' <= c <= 'z') ==> r == c
    ensures IsSpace(r) <==> IsSpace(c)
  {
    if 'a' <= c <= 'z' then (c as int - 32) as char else c
  }

  /** `s.split(sep)`: the pieces between occurrences of `sep`. None of them holds the
      separator, and joining them with it gives back `s` (see `JoinSplit`). */
  function Split(s: string, sep: char): (r: seq<string>)
    ensures |r| >= 1
    ensures forall i :: 0 <= i < |r| ==> sep !in r[i]
  {
    if s == [] then [[]]
    else
      var rest := Split(s[1..], sep);
      if s[0] == sep then
        var r := [[]] + rest;
        assert forall i :: 1 <= i < |r| ==> r[i] == rest[i - 1];
        r
      else
        var r := [[s[0]] + rest[0]] + rest[1..];
        assert forall i :: 1 <= i < |r| ==> r[i] == rest[i];
        assert |rest| > 1 ==> r[1..] == rest[1..];
        r
  }

  /** There is more than one piece exactly when the separator occurs. */
  lemma {:induction false} SplitSingle(s: string, sep: char)
    ensures |Split(s, sep)| == 1 <==> sep !in s
    ensures |Split(s, sep)| == 1 ==> Split(s, sep)[0] == s
  {
    if s != [] {
      SplitSingle(s[1..], sep);
      assert s == [s[0]] + s[1..];
    }
  }

  /** The first piece is the prefix before the first separator. */
  lemma {:induction false} SplitFirst(s: string, sep: char)
    ensures var r := Split(s, sep);
      |r[0]| <= |s| && r[0] == s[..|r[0]|] && sep !in r[0]
      && (|r| > 1 ==> |r[0]| < |s| && s[|r[0]|] == sep)
  {
    if s != [] {
      SplitFirst(s[1..], sep);
      var rest := Split(s[1..], sep);
      if s[0] != sep {
        assert s[..1 + |rest[0]|] == [s[0]] + s[1..][..|rest[0]|];
      }
    }
  }

  /** The last piece is the suffix after the last separator. */
  lemma {:induction false} SplitLast(s: string, sep: char)
    ensures var r := Split(s, sep); var last := r[|r| - 1];
      |last| <= |s| && last == s[|s| - |last|..] && sep !in last
      && (|r| > 1 ==> |last| < |s| && s[|s| - |last| - 1] == sep)
  {
    if s != [] {
      var tail := s[1..];
      SplitLast(tail, sep);
      SplitSingle(tail, sep);
      var rest := Split(tail, sep);
      if s[0] != sep && |rest| == 1 {
        SplitLastWord(s, sep);
      } else {
        SplitLastStep(s, sep, rest);
        SplitCons(s, sep);
      }
    }
  }

  /** One step of `SplitLast` when the first piece is not the last one: the last of
      the pieces `rest` of `s[1..]` is also a suffix of `s`, after a separator. */
  lemma SplitLastStep(s: string, sep: char, rest: seq<string>)
    requires s != [] && |rest| >= 1
    requires |rest| > 1 || (s[0] == sep && rest[0] == s[1..])
    requires var tail, last := s[1..], rest[|rest| - 1];
      |last| <= |tail| && last == tail[|tail| - |last|..]
      && (|rest| > 1 ==> |last| < |tail| && tail[|tail| - |last| - 1] == sep)
    ensures var last := rest[|rest| - 1];
      |last| < |s| && last == s[|s| - |last|..] && s[|s| - |last| - 1] == sep
  {
    var tail, last := s[1..], rest[|rest| - 1];
    assert tail[|tail| - |last|..] == s[|s| - |last|..];
    if |rest| > 1 {
      assert tail[|tail| - |last| - 1] == s[|s| - |last| - 1];
    }
  }

  /** One unfolding of `Split`: the first character starts the first piece, or is a
      separator before it. */
  lemma SplitCons(s: string, sep: char)
    requires s != []
    ensures var rest, r := Split(s[1..], sep), Split(s, sep);
      && r == (if s[0] == sep then [[]] + rest else [[s[0]] + rest[0]] + rest[1..])
      && (s[0] == sep || |rest| > 1 ==> |r| > 1 && r[|r| - 1] == rest[|rest| - 1])
  {
  }

  /** Joining the pieces of `s` with the separator gives back `s`. */
  lemma {:induction false} JoinSplit(s: string, sep: char)
    ensures Join(Split(s, sep), sep) == s
  {
    if s != [] {
      var rest, r := Split(s[1..], sep), Split(s, sep);
      JoinSplit(s[1..], sep);
      SplitCons(s, sep);
      if s[0] == sep {
        assert r[1..] == rest;
      } else if |rest| > 1 {
        assert r[1..] == rest[1..];
        assert Join(rest, sep) == rest[0] + [sep] + Join(rest[1..], sep);
      }
      assert s == [s[0]] + s[1..];
    }
  }

  /** The last step of `SplitLast` when the whole string is one piece. */
  lemma SplitLastWord(s: string, sep: char)
    requires s != [] && s[0] != sep && |Split(s[1..], sep)| == 1
    requires Split(s[1..], sep)[0] == s[1..] && sep !in s[1..]
    ensures Split(s, sep) == [s] && sep !in s
  {
    assert [s[0]] + s[1..] == s;
  }

  /** Joins pieces with `sep` between them. */
  function Join(pieces: seq<string>, sep: char): string
    requires |pieces| >= 1
  {
    if |pieces| == 1 then pieces[0] else pieces[0] + [sep] + Join(pieces[1..], sep)
  }

  predicate IsDigit(c: char) {
    '0' <= c <= '9'
  }

  predicate AllDigits(s: string) {
    forall i :: 0 <= i < |s| ==> IsDigit(s[i])
  }

  /** The number a string of decimal digits denotes. */
  function DigitsValue(s: string): nat
    requires AllDigits(s)
  {
    if s == [] then 0 else 10 * DigitsValue(s[..|s| - 1]) + (s[|s| - 1] as int - '0' as int)
  }

  /** The decimal numeral of `n`, without leading zeros. */
  function Numeral(n: nat): (r: string)
    ensures r != [] && AllDigits(r)
  {
    if n < 10 then [('0' as int + n) as char]
    else Numeral(n / 10) + [('0' as int + n % 10) as char]
  }

  lemma {:induction false} NumeralValue(n: nat)
    ensures DigitsValue(Numeral(n)) == n
  {
    if n >= 10 {
      NumeralValue(n / 10);
      var r := Numeral(n);
      assert r[..|r| - 1] == Numeral(n / 10);
    }
  }
}
