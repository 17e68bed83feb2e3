/** The parts of JavaScript's string semantics that the input utilities rely on:
    the character classes of regular expressions (`\d`, `\s`), `trim`, `slice`
    with negative indices, `split`/`join`, `parseInt` and the decimal rendering
    of integers by `String(n)`. A JavaScript string is a `seq<char>`. */
module JsText {
  import opened Wrappers

  // ---------------------------------------------------------------------------
  // Character classes
  // ---------------------------------------------------------------------------

  /** `\d` and `[0-9]`: the ASCII digits only. */
  predicate IsDigit(c: char) { '0' <= c <= '9' }

  predicate AllDigits(s: string) { forall i :: 0 <= i < |s| ==> IsDigit(s[i]) }

  predicate NoDigits(s: string) { forall i :: 0 <= i < |s| ==> !IsDigit(s[i]) }

  function DigitValue(c: char): (d: nat)
    requires IsDigit(c)
    ensures d < 10
  {
    (c as int) - ('0' as int)
  }

  function DigitChar(d: nat): (c: char)
    requires d < 10
    ensures IsDigit(c) && DigitValue(c) == d
  {
    (('0' as int) + d) as char
  }

  /** The WhiteSpace and LineTerminator code points that `trim` and `parseInt`
      skip: TAB, LF, VT, FF, CR, the Zs category, LS, PS and ZWNBSP. */
  const WhiteSpaceChars: set<char> := {
    '\t', '\n', '\U{B}', '\U{C}', '\r', ' ', '\U{A0}', '\U{1680}',
    '\U{2000}', '\U{2001}', '\U{2002}', '\U{2003}', '\U{2004}', '\U{2005}',
    '\U{2006}', '\U{2007}', '\U{2008}', '\U{2009}', '\U{200A}',
    '\U{2028}', '\U{2029}', '\U{202F}', '\U{205F}', '\U{3000}', '\U{FEFF}'
  }

  predicate IsWhiteSpace(c: char) { c in WhiteSpaceChars }

  predicate AllWhiteSpace(s: string) { forall i :: 0 <= i < |s| ==> IsWhiteSpace(s[i]) }

  lemma DigitIsNotWhiteSpace(c: char)
    requires IsDigit(c)
    ensures !IsWhiteSpace(c)
  {
  }

  lemma WhiteSpaceHasNoDigits(s: string)
    requires AllWhiteSpace(s)
    ensures NoDigits(s)
  {
    forall i | 0 <= i < |s| ensures !IsDigit(s[i]) {
      assert s[i] in WhiteSpaceChars;
    }
  }

  // ---------------------------------------------------------------------------
  // trim
  // ---------------------------------------------------------------------------

  /** The number of white-space characters the string starts with. */
  function LeadingWhiteSpace(s: string): (n: nat)
    ensures n <= |s| && AllWhiteSpace(s[..n])
    ensures n < |s| ==> !IsWhiteSpace(s[n])
  {
    if s != [] && IsWhiteSpace(s[0]) then
      var k := LeadingWhiteSpace(s[1..]);
      LeadingWhiteSpaceStep(s, k);
      k + 1
    else 0
  }

  lemma LeadingWhiteSpaceStep(s: string, k: nat)
    requires k < |s| && IsWhiteSpace(s[0]) && AllWhiteSpace(s[1..][..k])
    ensures AllWhiteSpace(s[..k + 1])
    ensures k + 1 < |s| ==> s[k + 1] == s[1..][k]
  {
    var head, tail := s[..k + 1], s[1..][..k];
    forall i | 0 <= i < |head|
      ensures IsWhiteSpace(head[i])
    {
      if i > 0 {
        assert head[i] == tail[i - 1];
      }
    }
  }

  /** The string without its leading white space. */
  function TrimStart(s: string): (r: string)
    ensures |r| <= |s| && r == s[|s| - |r|..]
    ensures AllWhiteSpace(s[..|s| - |r|])
    ensures r != [] ==> !IsWhiteSpace(r[0])
  {
    s[LeadingWhiteSpace(s)..]
  }

  /** The number of white-space characters the string ends with. */
  function TrailingWhiteSpace(s: string): (n: nat)
    ensures n <= |s| && AllWhiteSpace(s[|s| - n..])
    ensures n < |s| ==> !IsWhiteSpace(s[|s| - n - 1])
  {
    if s != [] && IsWhiteSpace(s[|s| - 1]) then
      var k := TrailingWhiteSpace(s[..|s| - 1]);
      TrailingWhiteSpaceStep(s, k);
      k + 1
    else 0
  }

  lemma TrailingWhiteSpaceStep(s: string, k: nat)
    requires k < |s| && IsWhiteSpace(s[|s| - 1]) && AllWhiteSpace(s[..|s| - 1][|s| - 1 - k..])
    ensures AllWhiteSpace(s[|s| - k - 1..])
    ensures k + 1 < |s| ==> s[|s| - k - 2] == s[..|s| - 1][|s| - k - 2]
  {
    var last, rest := s[|s| - k - 1..], s[..|s| - 1][|s| - 1 - k..];
    forall i | 0 <= i < |last|
      ensures IsWhiteSpace(last[i])
    {
      if i < k {
        assert last[i] == rest[i];
      }
    }
  }

  /** The string without its trailing white space. */
  function TrimEnd(s: string): (r: string)
    ensures |r| <= |s| && r == s[..|r|]
    ensures AllWhiteSpace(s[|r|..])
    ensures r != [] ==> !IsWhiteSpace(r[|r| - 1])
  {
    s[..|s| - TrailingWhiteSpace(s)]
  }

  /** `String.prototype.trim`. */
  function Trim(s: string): (r: string)
    ensures |r| <= |s|
    ensures r != [] ==> !IsWhiteSpace(r[0]) && !IsWhiteSpace(r[|r| - 1])
  {
    TrimEnd(TrimStart(s))
  }

  /** A string trims to "" exactly when every character of it is white space. */
  lemma TrimEmptyIff(s: string)
    ensures Trim(s) == [] <==> AllWhiteSpace(s)
  {
    var t := TrimStart(s);
    if Trim(s) == [] {
      assert AllWhiteSpace(t[0..]);
      assert t == [];
      assert s[..|s|] == s;
    }
  }

  /** A string without whitespace at either end is its own trim. */
  lemma TrimUntouched(s: string)
    requires s != [] ==> !IsWhiteSpace(s[0]) && !IsWhiteSpace(s[|s| - 1])
    ensures Trim(s) == s
  {
  }

  // ---------------------------------------------------------------------------
  // Filtering characters (`replace` with a global character-class pattern)
  // ---------------------------------------------------------------------------

  /** `s.replace(/[^0-9]/g, "")`, `s.replace(/\D/g, "")`, `s.replace(/[^\d]/g, "")`. */
  function KeepDigits(s: string): (r: string)
    ensures AllDigits(r) && |r| <= |s|
  {
    if s == [] then []
    else (if IsDigit(s[0]) then [s[0]] else []) + KeepDigits(s[1..])
  }

  /** A digit string is left as it is. */
  lemma {:induction false} KeepDigitsOfDigits(s: string)
    requires AllDigits(s)
    ensures KeepDigits(s) == s
  {
    if s != [] {
      KeepDigitsOfDigits(s[1..]);
      assert s == [s[0]] + s[1..];
    }
  }

  /** Nothing is left exactly when there is no digit. */
  lemma {:induction false} KeepDigitsEmptyIff(s: string)
    ensures KeepDigits(s) == [] <==> NoDigits(s)
  {
    if s != [] {
      KeepDigitsEmptyIff(s[1..]);
      if NoDigits(s) {
        assert NoDigits(s[1..]);
      }
    }
  }

  lemma {:induction false} KeepDigitsAppend(a: string, b: string)
    ensures KeepDigits(a + b) == KeepDigits(a) + KeepDigits(b)
  {
    if a == [] {
      assert a + b == b;
    } else {
      var head := if IsDigit(a[0]) then [a[0]] else [];
      assert (a + b)[0] == a[0];
      assert (a + b)[1..] == a[1..] + b;
      calc {
        KeepDigits(a + b);
        head + KeepDigits(a[1..] + b);
        { KeepDigitsAppend(a[1..], b); }
        head + (KeepDigits(a[1..]) + KeepDigits(b));
        (head + KeepDigits(a[1..])) + KeepDigits(b);
      }
    }
  }

  lemma TakeDrop(s: string, k: nat)
    requires k <= |s|
    ensures s == s[..k] + s[k..]
  {
  }

  /** White space around a text holds no digit to keep. */
  lemma KeepDigitsAroundWhiteSpace(white: string, rest: string)
    requires AllWhiteSpace(white)
    ensures KeepDigits(white + rest) == KeepDigits(rest)
    ensures KeepDigits(rest + white) == KeepDigits(rest)
  {
    WhiteSpaceHasNoDigits(white);
    KeepDigitsEmptyIff(white);
    KeepDigitsAppend(white, rest);
    KeepDigitsAppend(rest, white);
  }

  lemma KeepDigitsTrimStart(s: string)
    ensures KeepDigits(TrimStart(s)) == KeepDigits(s)
  {
    var t := TrimStart(s);
    TakeDrop(s, |s| - |t|);
    KeepDigitsAroundWhiteSpace(s[..|s| - |t|], t);
  }

  lemma KeepDigitsTrimEnd(s: string)
    ensures KeepDigits(TrimEnd(s)) == KeepDigits(s)
  {
    var u := TrimEnd(s);
    TakeDrop(s, |u|);
    KeepDigitsAroundWhiteSpace(s[|u|..], u);
  }

  /** Trimming first makes no difference to the digits kept. */
  lemma KeepDigitsTrim(s: string)
    ensures KeepDigits(Trim(s)) == KeepDigits(s)
  {
    KeepDigitsTrimStart(s);
    KeepDigitsTrimEnd(TrimStart(s));
  }

  /** Removing the non-digits twice is removing them once. */
  lemma KeepDigitsIdempotent(s: string)
    ensures KeepDigits(KeepDigits(s)) == KeepDigits(s)
  {
    KeepDigitsOfDigits(KeepDigits(s));
  }

  /** Every digit of the input survives, in order: the count of each digit is kept. */
  lemma {:induction false} KeepDigitsKeepsDigits(s: string, c: char)
    requires IsDigit(c)
    ensures multiset(KeepDigits(s))[c] == multiset(s)[c]
  {
    if s != [] {
      assert s == [s[0]] + s[1..];
      KeepDigitsKeepsDigits(s[1..], c);
    }
  }

  predicate IsDigitOrDot(c: char) { IsDigit(c) || c == '.' }

  predicate AllDigitsOrDots(s: string) { forall i :: 0 <= i < |s| ==> IsDigitOrDot(s[i]) }

  /** `s.replace(/[^0-9.]/g, "")`. */
  function KeepDigitsAndDots(s: string): (r: string)
    ensures AllDigitsOrDots(r) && |r| <= |s|
  {
    if s == [] then []
    else (if IsDigitOrDot(s[0]) then [s[0]] else []) + KeepDigitsAndDots(s[1..])
  }

  lemma {:induction false} KeepDigitsAndDotsOfDigitsOrDots(s: string)
    requires AllDigitsOrDots(s)
    ensures KeepDigitsAndDots(s) == s
  {
    if s != [] {
      KeepDigitsAndDotsOfDigitsOrDots(s[1..]);
      assert s == [s[0]] + s[1..];
    }
  }

  // ---------------------------------------------------------------------------
  // slice, startsWith, includes, indexOf, split, join
  // ---------------------------------------------------------------------------

  /** How `slice` reads one of its index arguments: a negative index counts from
      the end, and the result is clamped to [0, len]. */
  function SliceIndex(len: nat, k: int): (r: nat)
    ensures r <= len
    ensures 0 <= k <= len ==> r == k
    ensures k > len ==> r == len
    ensures k < 0 ==> r == if len + k < 0 then 0 else len + k
  {
    if k < 0 then (if len + k < 0 then 0 else len + k)
    else if k > len then len
    else k
  }

  /** `s.slice(start, end)`. */
  function Slice(s: string, start: int, end: int): (r: string)
    ensures |r| <= |s|
    ensures 0 <= start <= end ==>
      var from := if start < |s| then start else |s|;
      var to := if end < |s| then end else |s|;
      r == s[from..to]
    ensures 0 <= end ==> |r| <= end
    ensures AllDigits(s) ==> AllDigits(r)
    ensures AllDigitsOrDots(s) ==> AllDigitsOrDots(r)
  {
    var from, to := SliceIndex(|s|, start), SliceIndex(|s|, end);
    if from < to then s[from..to] else []
  }

  /** A slice from index 0 is a prefix, whatever its end. */
  lemma SliceFromZeroIsPrefix(s: string, end: int)
    ensures StartsWith(s, Slice(s, 0, end))
  {
    var to := SliceIndex(|s|, end);
    if 0 < to {
      assert Slice(s, 0, end) == s[..to];
    }
  }

  /** `s.slice(start)`. */
  function SliceFrom(s: string, start: int): (r: string)
    ensures 0 <= start <= |s| ==> r == s[start..]
    ensures start > |s| ==> r == []
  {
    Slice(s, start, |s|)
  }

  predicate StartsWith(s: string, prefix: string) {
    |prefix| <= |s| && s[..|prefix|] == prefix
  }

  /** `s.endsWith(suffix)`. */
  predicate EndsWith(s: string, suffix: string) {
    |suffix| <= |s| && s[|s| - |suffix|..] == suffix
  }

  lemma EndsWithAppend(a: string, b: string)
    ensures EndsWith(a + b, b)
  {
    assert (a + b)[|a|..] == b;
  }

  /** Of two suffixes of one string, the shorter is a suffix of the longer. */
  lemma EndsWithBoth(s: string, long: string, short: string)
    requires EndsWith(s, long) && EndsWith(s, short) && |short| <= |long|
    ensures EndsWith(long, short)
  {
    assert long[|long| - |short|..] == s[|s| - |short|..];
  }

  /** `hay.includes(needle)`. */
  predicate Contains(hay: string, needle: string) {
    exists i :: 0 <= i <= |hay| - |needle| && OccursAt(hay, needle, i)
  }

  /** `s.includes(c)` for a one-character search string. */
  predicate HasChar(s: string, c: char) {
    exists i :: 0 <= i < |s| && s[i] == c
  }

  predicate OccursAt(hay: string, needle: string, i: int)
    requires 0 <= i <= |hay| - |needle|
  {
    hay[i..i + |needle|] == needle
  }

  /** `s.indexOf(c)` for a one-character search string: -1 when absent. */
  function IndexOfChar(s: string, c: char): (r: int)
    ensures -1 <= r < |s|
    ensures r == -1 <==> c !in s
    ensures r >= 0 ==> s[r] == c && c !in s[..r]
  {
    if s == [] then -1
    else if s[0] == c then 0
    else
      var k := IndexOfChar(s[1..], c);
      if k == -1 then -1 else k + 1
  }

  /** The first occurrence is where the character is found with none before it. */
  lemma {:induction false} IndexOfCharAt(s: string, c: char, k: nat)
    requires k < |s| && s[k] == c && c !in s[..k]
    ensures IndexOfChar(s, c) == k
  {
    if k > 0 {
      assert s[0] in s[..k];
      assert s[1..][..k - 1] == s[1..k];
      assert forall x :: x in s[1..k] ==> x in s[..k];
      IndexOfCharAt(s[1..], c, k - 1);
    }
  }

  /** `s.split(sep)` for a one-character separator. */
  function Split(s: string, sep: char): (parts: seq<string>)
    ensures |parts| >= 1
    decreases |s|
  {
    var i := IndexOfChar(s, sep);
    if i == -1 then [s] else [s[..i]] + Split(s[i + 1..], sep)
  }

  /** `parts.join("")`. */
  function Concat(parts: seq<string>): string
  {
    if parts == [] then [] else parts[0] + Concat(parts[1..])
  }

  lemma {:induction false} SplitJoin(s: string, sep: char)
    ensures JoinWith(Split(s, sep), sep) == s
    decreases |s|
  {
    var i := IndexOfChar(s, sep);
    if i != -1 {
      var rest := Split(s[i + 1..], sep);
      assert Split(s, sep) == [s[..i]] + rest;
      assert ([s[..i]] + rest)[1..] == rest;
      SplitJoin(s[i + 1..], sep);
      calc {
        JoinWith(Split(s, sep), sep);
        s[..i] + [sep] + JoinWith(rest, sep);
        s[..i] + [sep] + s[i + 1..];
        { assert s == s[..i] + [sep] + s[i + 1..]; }
        s;
      }
    }
  }

  /** `parts.join(sep)` for a one-character separator. */
  function JoinWith(parts: seq<string>, sep: char): string
    requires |parts| >= 1
  {
    if |parts| == 1 then parts[0] else parts[0] + [sep] + JoinWith(parts[1..], sep)
  }

  /** Joining a list of two or more parts after swapping its first part. */
  lemma JoinWithNewHead(parts: seq<string>, head: string, sep: char)
    requires |parts| >= 2
    ensures JoinWith([head] + parts[1..], sep) == head + [sep] + JoinWith(parts[1..], sep)
    ensures JoinWith(parts, sep) == parts[0] + [sep] + JoinWith(parts[1..], sep)
  {
    assert ([head] + parts[1..])[1..] == parts[1..];
  }

  /** The first part of a split is everything before the first separator. */
  lemma SplitHead(s: string, sep: char)
    ensures var i := IndexOfChar(s, sep); Split(s, sep)[0] == if i == -1 then s else s[..i]
  {
  }

  /** Each part of a split is a piece of the input, so it has only the input's characters. */
  lemma {:induction false} SplitPartsFrom(s: string, sep: char)
    requires AllDigitsOrDots(s)
    ensures forall k :: 0 <= k < |Split(s, sep)| ==> AllDigitsOrDots(Split(s, sep)[k])
    decreases |s|
  {
    var i := IndexOfChar(s, sep);
    if i != -1 {
      SplitPartsFrom(s[i + 1..], sep);
    }
  }

  /** A fixed-shape regular expression such as `/^\d{3}\.\d{3}-\d{2}$/`, written
      as a shape string with '9' for each `\d` and every other character literal. */
  predicate MatchesShape(s: string, shape: string) {
    && |s| == |shape|
    && forall i :: 0 <= i < |s| ==> if shape[i] == '9' then IsDigit(s[i]) else s[i] == shape[i]
  }

  /** The number of `\d` slots ('9') in a shape or mask. */
  function Slots(shape: string): nat
  {
    if shape == [] then 0 else (if shape[0] == '9' then 1 else 0) + Slots(shape[1..])
  }

  lemma {:induction false} SlotsAppend(a: string, b: string)
    ensures Slots(a + b) == Slots(a) + Slots(b)
  {
    if a == [] {
      assert a + b == b;
    } else {
      assert (a + b)[0] == a[0];
      assert (a + b)[1..] == a[1..] + b;
      SlotsAppend(a[1..], b);
    }
  }

  /** Counting slots piece by piece, for shapes written as five pieces. */
  lemma SlotsOfPieces(a: string, b: string, c: string, d: string, e: string)
    ensures Slots(a + b + c + d + e) == Slots(a) + Slots(b) + Slots(c) + Slots(d) + Slots(e)
  {
    SlotsAppend(a, b);
    SlotsAppend(a + b, c);
    SlotsAppend(a + b + c, d);
    SlotsAppend(a + b + c + d, e);
  }

  /** The literal characters of a shape or mask are not digits. */
  predicate LiteralsNonDigits(shape: string) {
    forall i :: 0 <= i < |shape| && shape[i] != '9' ==> !IsDigit(shape[i])
  }

  lemma {:induction false} MatchesShapeTail(s: string, shape: string)
    requires MatchesShape(s, shape) && s != []
    ensures MatchesShape(s[1..], shape[1..])
  {
    assert forall i :: 0 <= i < |s| - 1 ==> s[1..][i] == s[i + 1] && shape[1..][i] == shape[i + 1];
  }

  /** A string of a shape without digit literals holds one digit per slot. */
  lemma {:induction false} MatchedDigits(s: string, shape: string)
    requires MatchesShape(s, shape) && LiteralsNonDigits(shape)
    ensures |KeepDigits(s)| == Slots(shape)
  {
    if s != [] {
      MatchesShapeTail(s, shape);
      assert LiteralsNonDigits(shape[1..]) by {
        assert forall i :: 0 <= i < |shape| - 1 ==> shape[1..][i] == shape[i + 1];
      }
      MatchedDigits(s[1..], shape[1..]);
    }
  }

  /** Every character after the first dot is not a dot. */
  predicate AtMostOneDot(s: string) {
    var i := IndexOfChar(s, '.');
    i == -1 || '.' !in s[i + 1..]
  }

  /** `s.replace(/\./g, "")`. */
  function RemoveDots(s: string): (r: string)
    ensures '.' !in r
  {
    if s == [] then []
    else (if s[0] == '.' then [] else [s[0]]) + RemoveDots(s[1..])
  }

  lemma {:induction false} RemoveDotsWithoutDots(s: string)
    requires '.' !in s
    ensures RemoveDots(s) == s
  {
    if s != [] {
      assert s[0] != '.';
      assert '.' !in s[1..] by {
        assert forall x :: x in s[1..] ==> x in s;
      }
      RemoveDotsWithoutDots(s[1..]);
      assert s == [s[0]] + s[1..];
    }
  }

  lemma {:induction false} RemoveDotsOfDigitsOrDots(s: string)
    ensures AllDigitsOrDots(s) ==> AllDigits(RemoveDots(s))
  {
    if s != [] {
      RemoveDotsOfDigitsOrDots(s[1..]);
    }
  }

  lemma {:induction false} RemoveDotsAppend(a: string, b: string)
    ensures RemoveDots(a + b) == RemoveDots(a) + RemoveDots(b)
  {
    if a == [] {
      assert a + b == b;
    } else {
      var head := if a[0] == '.' then [] else [a[0]];
      assert (a + b)[0] == a[0];
      assert (a + b)[1..] == a[1..] + b;
      calc {
        RemoveDots(a + b);
        head + RemoveDots(a[1..] + b);
        { RemoveDotsAppend(a[1..], b); }
        head + (RemoveDots(a[1..]) + RemoveDots(b));
        (head + RemoveDots(a[1..])) + RemoveDots(b);
      }
    }
  }

  /** Removing the dots passes over everything before the first dot. */
  lemma {:induction false} RemoveDotsFromFirstDot(s: string, i: nat)
    requires i < |s| && s[i] == '.' && '.' !in s[..i]
    ensures RemoveDots(s) == s[..i] + RemoveDots(s[i + 1..])
  {
    if i > 0 {
      var t := s[1..];
      assert t[..i - 1] == s[1..i];
      assert '.' !in t[..i - 1] by {
        assert forall x :: x in s[1..i] ==> x in s[..i];
      }
      RemoveDotsFromFirstDot(t, i - 1);
      assert t[i..] == s[i + 1..];
      assert s[..i] == [s[0]] + s[1..i];
    }
  }

  /** Joining the pieces of a split on '.' with "" removes every dot. */
  lemma {:induction false} ConcatSplitRemovesDots(s: string)
    ensures Concat(Split(s, '.')) == RemoveDots(s)
    decreases |s|
  {
    var i := IndexOfChar(s, '.');
    if i != -1 {
      var head, tail := s[..i], s[i + 1..];
      var rest := Split(tail, '.');
      assert Split(s, '.') == [head] + rest;
      assert Concat([head] + rest) == head + Concat(rest) by {
        assert ([head] + rest)[0] == head;
        assert ([head] + rest)[1..] == rest;
      }
      ConcatSplitRemovesDots(tail);
      RemoveDotsFromFirstDot(s, i);
    } else {
      assert Concat([s]) == s + Concat([]);
      RemoveDotsWithoutDots(s);
    }
  }

  function Repeat(c: char, n: nat): (r: string)
    ensures |r| == n && forall i :: 0 <= i < n ==> r[i] == c
  {
    if n == 0 then [] else [c] + Repeat(c, n - 1)
  }

  // ---------------------------------------------------------------------------
  // Numbers: decimal values, String(n) and parseInt
  // ---------------------------------------------------------------------------

  /** The value of a decimal digit string (0 for the empty string). */
  function DigitsValue(s: string): nat
    requires AllDigits(s)
  {
    if s == [] then 0 else DigitsValue(s[..|s| - 1]) * 10 + DigitValue(s[|s| - 1])
  }

  /** The decimal digits of `n`, without leading zeros. */
  function DecimalDigits(n: nat): (r: string)
    ensures r != [] && AllDigits(r)
    ensures |r| > 1 ==> r[0] != '0'
    ensures DigitsValue(r) == n
  {
    if n < 10 then [DigitChar(n)]
    else
      var r := DecimalDigits(n / 10) + [DigitChar(n % 10)];
      assert r[..|r| - 1] == DecimalDigits(n / 10);
      r
  }

  /** The most significant decimal digit of `n`. */
  function LeadingDigit(n: nat): (d: nat)
    ensures d < 10 && (n > 0 ==> d > 0)
  {
    if n < 10 then n else LeadingDigit(n / 10)
  }

  /** The first character of the decimal digits is the leading digit. */
  lemma {:induction false} DecimalDigitsLeading(n: nat)
    ensures DigitValue(DecimalDigits(n)[0]) == LeadingDigit(n)
  {
    if n >= 10 {
      DecimalDigitsLeading(n / 10);
      assert DecimalDigits(n)[0] == DecimalDigits(n / 10)[0];
    }
  }

  /** 10^21: from this magnitude on `String(n)` writes exponent notation. */
  const ExponentFrom: int := 1_000_000_000_000_000_000_000

  /** 2^1024 - 2^970: from this value on the nearest double is `Infinity`,
      so `parseInt` reads such a digit string as `Infinity`. */
  const InfinityFrom: int := 179769313486231580793728971405303415079934132710037826936173778980444968292764750946649017977587207096330286416692887910946555547851940402630657488671505820681908902000708383676273854845817711531764475730270069855571366959622842914819860834936475292719074168444365510704342711559699508093042880177904174497792

  /** The text without its trailing zeros. */
  function DropTrailingZeros(s: string): (r: string)
    ensures |r| <= |s| && r == s[..|r|]
    ensures forall i :: |r| <= i < |s| ==> s[i] == '0'
  {
    if s != [] && s[|s| - 1] == '0' then DropTrailingZeros(s[..|s| - 1]) else s
  }

  /** The exponent notation of `String(n)` for n from 10^21 on: the leading
      digit, the other significant digits after a dot, then "e+" and the
      exponent. Every digit of `n` is kept: the rounding of a double to its
      shortest decimal form is not modelled. */
  function ExponentNotation(n: nat): (r: string)
    requires n >= ExponentFrom
    ensures |r| >= 3 && IsDigit(r[0]) && DigitValue(r[0]) == LeadingDigit(n) && r[0] != '0'
    ensures r[1] == '.' || r[1] == 'e'
    ensures HasChar(r, 'e')
  {
    var digits := DecimalDigits(n);
    var significant := DropTrailingZeros(digits);
    var head := [digits[0]] + (if |significant| > 1 then "." + significant[1..] else "");
    var r := head + "e+" + DecimalDigits(|digits| - 1);
    DecimalDigitsLeading(n);
    assert r[|head|] == 'e';
    r
  }

  /** `String(n)` for a non-negative integer: plain digits below 10^21,
      exponent notation from there on. */
  function NatToString(n: nat): (r: string)
    ensures r != [] && IsDigit(r[0])
    ensures n < ExponentFrom ==> AllDigits(r) && DigitsValue(r) == n && (|r| > 1 ==> r[0] != '0')
  {
    if n < ExponentFrom then DecimalDigits(n) else ExponentNotation(n)
  }

  /** `String(n)` for an integer. */
  function IntToString(n: int): (r: string)
    ensures r != []
    ensures n >= 0 ==> IsDigit(r[0])
    ensures n < 0 ==> r[0] == '-'
    ensures 0 <= n < ExponentFrom ==> AllDigits(r) && DigitsValue(r) == n
    ensures -ExponentFrom < n < 0 ==> AllDigits(r[1..]) && DigitsValue(r[1..]) == -n
  {
    if n < 0 then "-" + NatToString(-n) else NatToString(n)
  }

  /** The longest prefix of decimal digits. */
  function DigitPrefix(s: string): (r: string)
    ensures AllDigits(r) && StartsWith(s, r)
    ensures |r| < |s| ==> !IsDigit(s[|r|])
  {
    if s != [] && IsDigit(s[0]) then [s[0]] + DigitPrefix(s[1..]) else []
  }

  predicate IsHexDigit(c: char) { IsDigit(c) || 'a' <= c <= 'f' || 'A' <= c <= 'F' }

  predicate AllHexDigits(s: string) { forall i :: 0 <= i < |s| ==> IsHexDigit(s[i]) }

  function HexDigitValue(c: char): (d: nat)
    requires IsHexDigit(c)
    ensures d < 16
  {
    if IsDigit(c) then DigitValue(c)
    else if 'a' <= c <= 'f' then (c as int) - ('a' as int) + 10
    else (c as int) - ('A' as int) + 10
  }

  function HexValue(s: string): nat
    requires AllHexDigits(s)
  {
    if s == [] then 0 else HexValue(s[..|s| - 1]) * 16 + HexDigitValue(s[|s| - 1])
  }

  /** The longest prefix of hexadecimal digits. */
  function HexPrefix(s: string): (r: string)
    ensures AllHexDigits(r) && StartsWith(s, r)
    ensures |r| < |s| ==> !IsHexDigit(s[|r|])
  {
    if s != [] && IsHexDigit(s[0]) then [s[0]] + HexPrefix(s[1..]) else []
  }

  /** `parseInt(s)` without a radix: leading white space is skipped, then an
      optional sign, then a "0x"/"0X" prefix selects base 16; the longest run of
      digits of the base is read. `None` stands for NaN (no digit at all). */
  function ParseInt(s: string): Option<int>
  {
    ParseSigned(TrimStart(s))
  }

  /** `parseInt` after the white space: an optional sign, then the magnitude. */
  function ParseSigned(t: string): Option<int>
  {
    if t != [] && t[0] == '-' then Negated(ParseMagnitude(t[1..]))
    else if t != [] && t[0] == '+' then Unsigned(ParseMagnitude(t[1..]))
    else Unsigned(ParseMagnitude(t))
  }

  function Unsigned(m: Option<nat>): Option<int>
  {
    match m
    case None => None
    case Some(v) => Some(v)
  }

  function Negated(m: Option<nat>): Option<int>
  {
    match m
    case None => None
    case Some(v) => Some(-(v as int))
  }

  /** The unsigned part of `parseInt`: a "0x"/"0X" prefix selects base 16,
      otherwise the longest run of leading decimal digits is read. */
  function ParseMagnitude(u: string): Option<nat>
  {
    if |u| >= 2 && u[0] == '0' && (u[1] == 'x' || u[1] == 'X') then
      var digits := HexPrefix(u[2..]);
      if digits == [] then None else Some(HexValue(digits))
    else
      var digits := DigitPrefix(u);
      if digits == [] then None else Some(DigitsValue(digits))
  }

  lemma ParseMagnitudeOfDigits(s: string)
    requires AllDigits(s) && s != []
    ensures ParseMagnitude(s) == Some(DigitsValue(s))
  {
    assert |s| >= 2 ==> s[1] != 'x' && s[1] != 'X';
    DigitPrefixOfDigits(s);
  }

  lemma ParseIntOfDigits(s: string)
    requires AllDigits(s)
    ensures ParseInt(s) == if s == [] then None else Some(DigitsValue(s))
  {
    if s != [] {
      ParseMagnitudeOfDigits(s);
      ParseIntUnsigned(s, DigitsValue(s));
    } else {
      ParseIntOfEmpty();
    }
  }

  /** `parseInt("")` is NaN. */
  lemma ParseIntOfEmpty()
    ensures ParseInt([]) == None
  {
    assert TrimStart([]) == [];
    assert DigitPrefix([]) == [];
  }

  /** A text starting with a digit has no sign: `parseInt` reads its magnitude. */
  lemma ParseIntUnsigned(r: string, v: nat)
    requires r != [] && IsDigit(r[0]) && ParseMagnitude(r) == Some(v)
    ensures ParseInt(r) == Some(v)
  {
    DigitIsNotWhiteSpace(r[0]);
    ParseIntOfUnspaced(r);
    assert r[0] != '-' && r[0] != '+';
  }

  /** `parseInt` reads back what `String(n)` wrote below 10^21; from there
      on it stops at the dot or the "e" and reads only the leading digit. */
  lemma ParseIntOfIntToString(n: int)
    ensures -ExponentFrom < n < ExponentFrom ==> ParseInt(IntToString(n)) == Some(n)
    ensures n >= ExponentFrom ==> ParseInt(IntToString(n)) == Some(LeadingDigit(n))
    ensures n <= -ExponentFrom ==> ParseInt(IntToString(n)) == Some(-(LeadingDigit(-n) as int))
  {
    if n <= -ExponentFrom {
      ParseIntOfNegativeExponent(n);
    } else if n < 0 {
      ParseIntOfMinusDigits(IntToString(n), -n);
    } else if n < ExponentFrom {
      ParseIntOfDigits(IntToString(n));
    } else {
      ParseIntOfExponent(n);
    }
  }

  lemma ParseIntOfExponent(n: nat)
    requires n >= ExponentFrom
    ensures ParseInt(IntToString(n)) == Some(LeadingDigit(n))
  {
    var r := ExponentNotation(n);
    assert IntToString(n) == r;
    ParseMagnitudeOfDigit(r);
    ParseIntUnsigned(r, LeadingDigit(n));
  }

  lemma ParseIntOfNegativeExponent(n: int)
    requires n <= -ExponentFrom
    ensures ParseInt(IntToString(n)) == Some(-(LeadingDigit(-n) as int))
  {
    IntToStringNegativeExponent(n);
    ParseIntOfMinusDigit(IntToString(n), ExponentNotation(-n), LeadingDigit(-n));
  }

  /** From -10^21 down, `String(n)` is a minus sign and the exponent form of
      the magnitude. */
  lemma IntToStringNegativeExponent(n: int)
    requires n <= -ExponentFrom
    ensures IntToString(n) == "-" + ExponentNotation(-n)
  {
    IntToStringNegative(n);
  }

  /** One non-zero digit followed by a non-digit: `parseInt` reads the digit. */
  lemma ParseMagnitudeOfDigit(u: string)
    requires |u| >= 2 && IsDigit(u[0]) && u[0] != '0' && !IsDigit(u[1])
    ensures ParseMagnitude(u) == Some(DigitValue(u[0]))
  {
    assert DigitPrefix(u) == [u[0]] + DigitPrefix(u[1..]);
    assert DigitPrefix(u) == [u[0]];
    assert DigitsValue([u[0]]) == DigitsValue([u[0]][..0]) * 10 + DigitValue(u[0]);
  }

  lemma IntToStringNegative(n: int)
    requires n < 0
    ensures IntToString(n) == "-" + NatToString(-n)
  {
  }

  /** A minus sign and a run of digits: `parseInt` reads their value, negated. */
  lemma ParseIntOfMinusDigits(s: string, v: nat)
    requires |s| >= 2 && s[0] == '-' && AllDigits(s[1..]) && DigitsValue(s[1..]) == v
    ensures ParseInt(s) == Some(-(v as int))
  {
    ParseMagnitudeOfDigits(s[1..]);
    ParseIntNegated(s, v);
  }

  /** A minus sign, a non-zero digit and a non-digit: `parseInt` reads the
      digit, negated. */
  lemma ParseIntOfMinusDigit(s: string, r: string, v: nat)
    requires s == "-" + r
    requires |r| >= 2 && IsDigit(r[0]) && r[0] != '0' && !IsDigit(r[1]) && DigitValue(r[0]) == v
    ensures ParseInt(s) == Some(-(v as int))
  {
    assert s[1..] == r;
    ParseMagnitudeOfDigit(r);
    ParseIntNegated(s, v);
  }

  lemma ParseIntNegated(s: string, v: nat)
    requires s != [] && s[0] == '-' && ParseMagnitude(s[1..]) == Some(v)
    ensures ParseInt(s) == Some(-(v as int))
  {
    assert !IsWhiteSpace('-');
    ParseIntOfUnspaced(s);
  }

  /** Without leading white space `parseInt` starts at the sign. */
  lemma ParseIntOfUnspaced(s: string)
    requires s != [] && !IsWhiteSpace(s[0])
    ensures ParseInt(s) == ParseSigned(s)
  {
    assert TrimStart(s) == s;
  }

  lemma {:induction false} DigitPrefixOfDigits(s: string)
    requires AllDigits(s)
    ensures DigitPrefix(s) == s
  {
    if s != [] {
      DigitPrefixOfDigits(s[1..]);
    }
  }

  // ---------------------------------------------------------------------------
  // Case mapping and comparison
  // ---------------------------------------------------------------------------

  /** `toLowerCase` on ASCII letters; every other character is kept. */
  function ToLowerAscii(s: string): (r: string)
    ensures |r| == |s|
    ensures forall i :: 0 <= i < |s| ==>
      r[i] == if 'A' <= s[i] <= 'Z' then (s[i] as int + 32) as char else s[i]
  {
    if s == [] then []
    else [if 'A' <= s[0] <= 'Z' then (s[0] as int + 32) as char else s[0]] + ToLowerAscii(s[1..])
  }

  /** The `<` operator on strings: lexicographic by character, a proper prefix first. */
  predicate StrLess(a: string, b: string) {
    if a == [] then b != []
    else if b == [] then false
    else if a[0] != b[0] then a[0] < b[0]
    else StrLess(a[1..], b[1..])
  }

  lemma {:induction false} StrLessIrreflexive(a: string)
    ensures !StrLess(a, a)
  {
    if a != [] { StrLessIrreflexive(a[1..]); }
  }

  lemma {:induction false} StrLessTransitive(a: string, b: string, c: string)
    requires StrLess(a, b) && StrLess(b, c)
    ensures StrLess(a, c)
  {
    if a != [] && b != [] && c != [] && a[0] == b[0] && b[0] == c[0] {
      StrLessTransitive(a[1..], b[1..], c[1..]);
    }
  }

  /** Distinct strings are ordered one way or the other. */
  lemma {:induction false} StrLessTotal(a: string, b: string)
    requires a != b
    ensures StrLess(a, b) || StrLess(b, a)
  {
    if a != [] && b != [] && a[0] == b[0] {
      assert a == [a[0]] + a[1..] && b == [b[0]] + b[1..];
      StrLessTotal(a[1..], b[1..]);
    }
  }
}
