/**
 * The two string operations the add-habit input goes through: Python's
 * `str.split(sep)` with an explicit one-character separator, and
 * `str.strip()` with no argument.
 */
module Text {

  /** Whitespace as `str.isspace()` sees it, restricted to ASCII:
      tab, line feed, vertical tab, form feed, carriage return,
      the four information separators 0x1C-0x1F, and space. */
  predicate IsSpace(c: char) {
    c == ' ' || 9 <= c as int <= 13 || 28 <= c as int <= 31
  }

  /** Number of occurrences of `c` in `s` */
  function Count(s: string, c: char): nat {
    if s == [] then 0 else (if s[0] == c then 1 else 0) + Count(s[1..], c)
  }

  /** The fields joined back together with the separator between them */
  function Join(parts: seq<string>, sep: char): string
    requires |parts| >= 1
  {
    if |parts| == 1 then parts[0] else parts[0] + [sep] + Join(parts[1..], sep)
  }

  /** `s.split(sep)`: the maximal separator-free fields of `s`, in order.
      An empty string gives one empty field; adjacent separators give empty fields. */
  function Split(s: string, sep: char): (parts: seq<string>)
    ensures |parts| == Count(s, sep) + 1
    ensures forall i :: 0 <= i < |parts| ==> sep !in parts[i]
    ensures Join(parts, sep) == s
    decreases |s|
  {
    if s == [] then [""]
    else
      var rest := Split(s[1..], sep);
      if s[0] == sep then [""] + rest
      else
        assert [""] + rest[1..] == [""] + rest[1..];
        JoinFirst(rest, s[0], sep);
        [[s[0]] + rest[0]] + rest[1..]
  }

  /** Prepending a character to the first field prepends it to the joined string */
  lemma {:induction false} JoinFirst(parts: seq<string>, c: char, sep: char)
    requires |parts| >= 1
    ensures Join([[c] + parts[0]] + parts[1..], sep) == [c] + Join(parts, sep)
  {
    var q := [[c] + parts[0]] + parts[1..];
    assert q[1..] == parts[1..];
  }

  /** The first field of `s.split(sep)` is the text before the first separator,
      or all of `s` when there is none */
  lemma {:induction false} SplitFirstField(s: string, sep: char)
    ensures var k := |Split(s, sep)[0]|;
      k <= |s| && Split(s, sep)[0] == s[..k] && (k == |s| || s[k] == sep)
    decreases |s|
  {
    if s != [] && s[0] != sep {
      SplitFirstField(s[1..], sep);
    }
  }

  /** When `s` has a separator, the second field of `s.split(sep)` is the text
      between the first separator and the next one (or the end of `s`) */
  lemma {:induction false} SplitSecondField(s: string, sep: char)
    requires sep in s
    ensures |Split(s, sep)| >= 2
    ensures var k := |Split(s, sep)[0]|; var j := |Split(s, sep)[1]|;
      k + 1 + j <= |s| && s[k] == sep && Split(s, sep)[1] == s[k + 1..k + 1 + j] &&
      (k + 1 + j == |s| || s[k + 1 + j] == sep)
    decreases |s|
  {
    CountPositive(s, sep);
    if s[0] == sep {
      SplitFirstField(s[1..], sep);
    } else {
      SplitSecondField(s[1..], sep);
    }
  }

  lemma {:induction false} CountPositive(s: string, c: char)
    ensures c in s <==> Count(s, c) > 0
    decreases |s|
  {
    if s != [] {
      CountPositive(s[1..], c);
      assert s == [s[0]] + s[1..];
    }
  }

  /** The first position at or after `i` that does not hold whitespace,
      or the end of `s` (the scan of `str.lstrip()`) */
  function SkipSpaces(s: string, i: int): (j: int)
    requires 0 <= i <= |s|
    ensures i <= j <= |s|
    ensures forall k :: i <= k < j ==> IsSpace(s[k])
    ensures j == |s| || !IsSpace(s[j])
    decreases |s| - i
  {
    if i < |s| && IsSpace(s[i]) then SkipSpaces(s, i + 1) else i
  }

  /** The end of `s[lo..j]` once its trailing whitespace is dropped
      (the scan of `str.rstrip()`) */
  function TrimSpaces(s: string, lo: int, j: int): (e: int)
    requires 0 <= lo <= j <= |s|
    ensures lo <= e <= j
    ensures forall k :: e <= k < j ==> IsSpace(s[k])
    ensures e == lo || !IsSpace(s[e - 1])
    decreases j
  {
    if lo < j && IsSpace(s[j - 1]) then TrimSpaces(s, lo, j - 1) else j
  }

  /** `s.strip()`: `s` without its leading and trailing whitespace. The
      result is the infix of `s` starting after the leading whitespace, and
      everything after it is whitespace too. */
  function Strip(s: string): (r: string)
    ensures var i := SkipSpaces(s, 0);
      i + |r| <= |s| && r == s[i..i + |r|] &&
      (forall k :: 0 <= k < i ==> IsSpace(s[k])) &&
      (forall k :: i + |r| <= k < |s| ==> IsSpace(s[k]))
    ensures r == [] || (!IsSpace(r[0]) && !IsSpace(r[|r| - 1]))
  {
    var i := SkipSpaces(s, 0);
    s[i..TrimSpaces(s, i, |s|)]
  }

  /** A string strips to nothing exactly when it is all whitespace */
  lemma StripEmpty(s: string)
    ensures Strip(s) == [] <==> forall k :: 0 <= k < |s| ==> IsSpace(s[k])
  {
    var i := SkipSpaces(s, 0);
    if Strip(s) != [] {
      assert Strip(s)[0] == s[i];
    }
  }

  /** Stripping twice is stripping once */
  lemma StripIdempotent(s: string)
    ensures Strip(Strip(s)) == Strip(s)
  {
    var r := Strip(s);
    if r != [] {
      assert SkipSpaces(r, 0) == 0;
      assert TrimSpaces(r, 0, |r|) == |r|;
    }
  }
}
