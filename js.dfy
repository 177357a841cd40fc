/** The slice of the JavaScript runtime that the scraper relies on: dynamic
    values, thrown errors, and the few built-ins (Array.prototype.filter,
    String.prototype.startsWith / includes / trim, String(n) and Number(s))
    whose behaviour both source files depend on. */
module Js {

  datatype Option<T> = None | Some(value: T)

  /** What `elem.text` is on a handle: absent, a string-valued property, or a
      method returning the element's text (as on a cheerio wrapper, where
      `$(element).text()` gives the text). */
  datatype TextMember = NoText | TextProperty(s: string) | TextMethod(contents: string)

  /** A DOM element handle, seen through the only two accessors the extractors
      probe: `text` and an `attr(name)` lookup. `None` means the handle lacks
      `attr` (the `elem.attr && ...` guard). */
  datatype Handle = Handle(text: TextMember, attr: Option<map<string, string>>)

  /** JavaScript values as far as the core uses them. Functions are not values
      of this type (a datatype cannot contain functions over itself); the
      positions that accept "anything, maybe a function" use Helper.Arg. */
  datatype Value =
    | Undefined
    | Null
    | Num(n: int)
    | Str(s: string)
    | Arr(items: seq<Value>)
    | Obj(props: map<string, Value>)
    | Elem(handle: Handle)

  datatype Error = TypeError(message: string)

  /** The outcome of a JavaScript call: a value, or an exception. */
  datatype Result<T> = Ok(value: T) | Throw(error: Error) {
    /** Passes a value on to the next stage; an exception skips it. */
    function Then<U>(f: T -> Result<U>): (r: Result<U>)
      ensures Throw? ==> r == Throw(error)
      ensures Ok? ==> r == f(value)
    {
      match this
      case Ok(v) => f(v)
      case Throw(e) => Throw(e)
    }
  }

  // ---------------------------------------------------------------------
  // Array.prototype.filter and order-preserving subsequences

  /** `s.filter(keep)`: the elements of `s` that `keep` accepts, in order. */
  function Filter<T>(s: seq<T>, keep: T -> bool): (r: seq<T>)
    ensures |r| <= |s|
    ensures forall i :: 0 <= i < |r| ==> keep(r[i])
  {
    if s == [] then [] else (if keep(s[0]) then [s[0]] else []) + Filter(s[1..], keep)
  }

  /** `a` can be obtained from `b` by deleting elements (order is kept). */
  ghost predicate IsSubsequence<T>(a: seq<T>, b: seq<T>)
  {
    if a == [] then true
    else if b == [] then false
    else (a[0] == b[0] && IsSubsequence(a[1..], b[1..])) || IsSubsequence(a, b[1..])
  }

  /** Filtering distributes over concatenation: what is kept of `a` comes
      before what is kept of `b`. */
  lemma {:induction false} FilterConcat<T>(a: seq<T>, b: seq<T>, keep: T -> bool)
    ensures Filter(a + b, keep) == Filter(a, keep) + Filter(b, keep)
  {
    if a == [] {
      assert a + b == b;
    } else {
      assert (a + b)[1..] == a[1..] + b;
      FilterConcat(a[1..], b, keep);
    }
  }

  /** An element survives filtering exactly when it occurs and is accepted. */
  lemma {:induction false} FilterMembership<T>(s: seq<T>, keep: T -> bool, x: T)
    ensures x in Filter(s, keep) <==> x in s && keep(x)
  {
    if s != [] {
      FilterMembership(s[1..], keep, x);
      assert s == [s[0]] + s[1..];
    }
  }

  lemma {:induction false} FilterIsSubsequence<T>(s: seq<T>, keep: T -> bool)
    ensures IsSubsequence(Filter(s, keep), s)
  {
    if s != [] {
      FilterIsSubsequence(s[1..], keep);
      var rest := Filter(s[1..], keep);
      if keep(s[0]) {
        assert Filter(s, keep) == [s[0]] + rest;
        assert ([s[0]] + rest)[1..] == rest;
      } else {
        assert Filter(s, keep) == rest;
      }
    }
  }

  /** Filtering keeps every copy of an accepted element and no copy of a
      rejected one. */
  lemma {:induction false} FilterMultiset<T>(s: seq<T>, keep: T -> bool, x: T)
    ensures multiset(Filter(s, keep))[x] == if keep(x) then multiset(s)[x] else 0
  {
    if s != [] {
      FilterMultiset(s[1..], keep, x);
      assert s == [s[0]] + s[1..];
    }
  }

  /** Filtering twice with the same test is filtering once. */
  lemma {:induction false} FilterIdempotent<T>(s: seq<T>, keep: T -> bool)
    ensures Filter(Filter(s, keep), keep) == Filter(s, keep)
  {
    FilterKeepsAccepted(Filter(s, keep), keep);
  }

  /** A sequence whose every element is accepted is left as it is. */
  lemma {:induction false} FilterKeepsAccepted<T>(s: seq<T>, keep: T -> bool)
    requires forall i :: 0 <= i < |s| ==> keep(s[i])
    ensures Filter(s, keep) == s
  {
    if s != [] {
      FilterKeepsAccepted(s[1..], keep);
    }
  }

  // ---------------------------------------------------------------------
  // Strings

  predicate StartsWith(s: string, prefix: string)
  {
    |prefix| <= |s| && s[..|prefix|] == prefix
  }

  /** `t` occurs in `s` starting at index `i`. */
  ghost predicate OccursAt(s: string, t: string, i: int)
  {
    0 <= i && i + |t| <= |s| && s[i..i + |t|] == t
  }

  /** An occurrence in a non-empty `s` is at its front or in its tail. */
  lemma OccursStep(s: string, t: string)
    requires |s| > 0
    ensures (StartsWith(s, t) || exists i :: OccursAt(s[1..], t, i)) <==> exists i :: OccursAt(s, t, i)
  {
    if StartsWith(s, t) {
      assert OccursAt(s, t, 0);
    }
    if exists i :: OccursAt(s[1..], t, i) {
      var i :| OccursAt(s[1..], t, i);
      assert s[1..][i..i + |t|] == s[i + 1..i + 1 + |t|];
      assert OccursAt(s, t, i + 1);
    }
    if exists i :: OccursAt(s, t, i) {
      var i :| OccursAt(s, t, i);
      if i > 0 {
        assert s[1..][i - 1..i - 1 + |t|] == s[i..i + |t|];
        assert OccursAt(s[1..], t, i - 1);
      }
    }
  }

  /** `s.includes(t)`: case-sensitive substring search, character by
      character; it finds `t` exactly when `t` occurs at some index of `s`. */
  function Includes(s: string, t: string): (found: bool)
    ensures found <==> exists i :: OccursAt(s, t, i)
    decreases |s|
  {
    if |s| == 0 then
      assert StartsWith(s, t) ==> OccursAt(s, t, 0);
      StartsWith(s, t)
    else
      OccursStep(s, t);
      StartsWith(s, t) || Includes(s[1..], t)
  }

  /** The characters String.prototype.trim removes: white space and line
      terminators of ECMAScript (sections 12.2 and 12.3 of ECMA-262). */
  predicate IsWhiteSpace(c: char)
  {
    c in {'\t', '\n', '\U{000B}', '\U{000C}', '\r', ' ', '\U{00A0}', '\U{1680}',
          '\U{2028}', '\U{2029}', '\U{202F}', '\U{205F}', '\U{3000}', '\U{FEFF}'}
    || ('\U{2000}' <= c <= '\U{200A}')
  }

  /** `s.trimStart()`: the suffix of `s` left once leading white space is
      removed; everything removed is white space. */
  function TrimStart(s: string): (r: string)
    ensures r == [] || !IsWhiteSpace(r[0])
    ensures |r| <= |s| && r == s[|s| - |r|..]
    ensures forall k :: 0 <= k < |s| - |r| ==> IsWhiteSpace(s[k])
  {
    if s != [] && IsWhiteSpace(s[0]) then
      var r := TrimStart(s[1..]);
      assert r == s[|s| - |r|..];
      assert forall k :: 1 <= k < |s| - |r| ==> s[k] == s[1..][k - 1];
      r
    else
      s
  }

  /** `s.trimEnd()`: the prefix of `s` left once trailing white space is
      removed; everything removed is white space. */
  function TrimEnd(s: string): (r: string)
    ensures r == [] || !IsWhiteSpace(r[|r| - 1])
    ensures |r| <= |s| && r == s[..|r|]
    ensures forall k :: |r| <= k < |s| ==> IsWhiteSpace(s[k])
  {
    if s != [] && IsWhiteSpace(s[|s| - 1]) then
      var r := TrimEnd(s[..|s| - 1]);
      assert r == s[..|r|];
      assert forall k :: |r| <= k < |s| - 1 ==> s[k] == s[..|s| - 1][k];
      r
    else
      s
  }

  /** `r` is the part `s[i..i + |r|]` of `s`, and everything of `s` outside
      that part is white space. */
  ghost predicate TrimmedAt(s: string, r: string, i: int)
  {
    0 <= i <= |s| - |r| && r == s[i..i + |r|]
    && (forall k :: 0 <= k < i ==> IsWhiteSpace(s[k]))
    && (forall k :: i + |r| <= k < |s| ==> IsWhiteSpace(s[k]))
  }

  /** No white space at either end. */
  predicate Clean(r: string)
  {
    r == [] || (!IsWhiteSpace(r[0]) && !IsWhiteSpace(r[|r| - 1]))
  }

  /** `s.trim()`: the contiguous part of `s` left once white space is removed
      from both ends. */
  function Trim(s: string): (r: string)
    ensures Clean(r)
    ensures exists i :: TrimmedAt(s, r, i)
  {
    var t := TrimStart(s);
    var r := TrimEnd(t);
    TrimmedPieces(s, t, r);
    r
  }

  /** A white-space-free-at-the-front suffix `t` of `s`, cut down to a
      white-space-free-at-the-back prefix `r`, both cuts removing only white
      space, is a clean middle of `s`. */
  lemma TrimmedPieces(s: string, t: string, r: string)
    requires |t| <= |s| && t == s[|s| - |t|..] && (t == [] || !IsWhiteSpace(t[0]))
    requires forall k :: 0 <= k < |s| - |t| ==> IsWhiteSpace(s[k])
    requires |r| <= |t| && r == t[..|r|] && (r == [] || !IsWhiteSpace(r[|r| - 1]))
    requires forall k :: |r| <= k < |t| ==> IsWhiteSpace(t[k])
    ensures Clean(r) && TrimmedAt(s, r, |s| - |t|)
  {
    var i := |s| - |t|;
    if r != [] {
      assert r[0] == t[0];
    }
    assert r == s[i..][..|r|];
    forall k | i + |r| <= k < |s| ensures IsWhiteSpace(s[k]) {
      assert s[k] == t[k - i];
    }
  }

  /** Trim is the only way to cut `s` into white space, a clean middle and
      white space: any such middle is `Trim(s)`. */
  lemma TrimUnique(s: string, r: string, i: int)
    requires Clean(r) && TrimmedAt(s, r, i)
    ensures r == Trim(s)
  {
    var t := Trim(s);
    var j :| TrimmedAt(s, t, j);
    TrimmedUnique(s, r, i, t, j);
  }

  lemma TrimmedUnique(s: string, r: string, i: int, t: string, j: int)
    requires Clean(r) && TrimmedAt(s, r, i)
    requires Clean(t) && TrimmedAt(s, t, j)
    ensures r == t
  {
    if r != [] {
      assert s[i] == r[0] && s[i + |r| - 1] == r[|r| - 1];
    }
    if t != [] {
      assert s[j] == t[0] && s[j + |t| - 1] == t[|t| - 1];
    }
  }

  // ---------------------------------------------------------------------
  // Decimal numerals: String(n) and Number(s) on non-negative integers

  predicate IsDigit(c: char) { '0' <= c <= '9' }

  predicate AllDigits(s: string) { forall i :: 0 <= i < |s| ==> IsDigit(s[i]) }

  /** The shape String(n) gives a non-negative integer: digits only, at
      least one, and no leading zero unless the numeral is "0". */
  predicate IsCanonicalDecimal(s: string)
  {
    |s| >= 1 && AllDigits(s) && (s[0] == '0' ==> |s| == 1)
  }

  function DigitChar(d: nat): (c: char)
    requires d < 10
    ensures IsDigit(c) && c as int - '0' as int == d
  {
    (d + '0' as int) as char
  }

  /** `String(n)` (equally `"" + n`) for a non-negative integer n. */
  function NumberToString(n: nat): (r: string)
    ensures |r| >= 1 && AllDigits(r)
    ensures r[0] == '0' <==> n == 0
  {
    if n < 10 then [DigitChar(n)] else NumberToString(n / 10) + [DigitChar(n % 10)]
  }

  /** `Number(s)` for a string of decimal digits (the empty string is 0, as in
      JavaScript). */
  function StringToNumber(s: string): (n: nat)
    requires AllDigits(s)
    ensures |s| > 0 && s[0] != '0' ==> n >= 1
  {
    if s == [] then 0
    else StringToNumber(s[..|s| - 1]) * 10 + (s[|s| - 1] as int - '0' as int)
  }

  /** Reading back what String(n) wrote gives n. */
  lemma {:induction false} NumberRoundTrip(n: nat)
    ensures IsCanonicalDecimal(NumberToString(n))
    ensures StringToNumber(NumberToString(n)) == n
  {
    var r := NumberToString(n);
    if n >= 10 {
      NumberRoundTrip(n / 10);
      assert r[..|r| - 1] == NumberToString(n / 10);
    }
  }

  /** A digit string reads as zero exactly when all its digits are '0'. */
  lemma {:induction false} ZeroNumeral(s: string)
    requires AllDigits(s)
    ensures StringToNumber(s) == 0 <==> forall i :: 0 <= i < |s| ==> s[i] == '0'
    decreases |s|
  {
    if s != [] {
      var p := s[..|s| - 1];
      ZeroNumeral(p);
      assert forall i :: 0 <= i < |p| ==> p[i] == s[i];
    }
  }

  /** Distinct integers are written as distinct numerals. */
  lemma NumberToStringInjective(n: nat)
    ensures forall m: nat :: m < n ==> NumberToString(m) != NumberToString(n)
  {
    forall m: nat | m < n
      ensures NumberToString(m) != NumberToString(n)
    {
      NumberRoundTrip(m);
      NumberRoundTrip(n);
    }
  }

  /** Writing back what Number(s) read gives s, when s is a canonical numeral. */
  lemma {:induction false} CanonicalRoundTrip(s: string)
    requires IsCanonicalDecimal(s)
    ensures NumberToString(StringToNumber(s)) == s
    decreases |s|
  {
    var n := StringToNumber(s);
    if |s| > 1 {
      var p := s[..|s| - 1];
      var d := s[|s| - 1] as int - '0' as int;
      assert IsCanonicalDecimal(p) && p[0] != '0';
      CanonicalRoundTrip(p);
      var m := StringToNumber(p);
      assert n == m * 10 + d;
      assert n / 10 == m && n % 10 == d;
      assert NumberToString(n) == NumberToString(m) + [DigitChar(d)];
      assert s == p + [s[|s| - 1]];
    }
  }
}
