/** The extraction toolkit of helper.js: function composition, URL and
    number sanitisers, null filtering, pair folding, and the element
    extractors built from them. Everything here is a pure function. */
module Helper {
  import opened Js

  /** What the source passes where it expects a function: a function, an array
      (of further arguments, flattened before use), or any other value. A
      function may throw, so it returns a Result. */
  datatype Arg =
    | Fun(call: Value -> Result<Value>)
    | Nested(items: seq<Arg>)
    | Data(v: Value)

  /** A JavaScript function that never throws. */
  function Total(f: Value -> Value): (a: Arg)
    ensures a.Fun? && forall v :: a.call(v) == Ok(f(v))
  {
    Fun(v => Ok(f(v)))
  }

  /** What is left once flattening is done: a function, or a value that is
      not an array. */
  predicate IsFlat(a: Arg)
  {
    a.Fun? || (a.Data? && !a.v.Arr?)
  }

  function FlattenValues(vs: seq<Value>): (r: seq<Arg>)
    ensures forall i :: 0 <= i < |r| ==> IsFlat(r[i])
  {
    if vs == [] then []
    else (if vs[0].Arr? then FlattenValues(vs[0].items) else [Data(vs[0])]) + FlattenValues(vs[1..])
  }

  /** lodash's `_.flattenDeep`: arrays at any depth are spliced into the list. */
  function FlattenDeep(args: seq<Arg>): (r: seq<Arg>)
    ensures forall i :: 0 <= i < |r| ==> IsFlat(r[i])
  {
    if args == [] then []
    else
      (match args[0]
       case Nested(items) => FlattenDeep(items)
       case Data(v) => if v.Arr? then FlattenValues(v.items) else [args[0]]
       case Fun(_) => [args[0]])
      + FlattenDeep(args[1..])
  }

  lemma {:induction false} FlattenDeepConcat(a: seq<Arg>, b: seq<Arg>)
    ensures FlattenDeep(a + b) == FlattenDeep(a) + FlattenDeep(b)
  {
    if a == [] {
      assert a + b == b;
    } else {
      assert (a + b)[0] == a[0];
      assert (a + b)[1..] == a[1..] + b;
      FlattenDeepConcat(a[1..], b);
    }
  }

  /** An already flat list is left as it is. */
  lemma {:induction false} FlattenDeepOfFlat(args: seq<Arg>)
    requires forall i :: 0 <= i < |args| ==> IsFlat(args[i])
    ensures FlattenDeep(args) == args
  {
    if args != [] {
      FlattenDeepOfFlat(args[1..]);
    }
  }

  /** A function, or a value that is not an array, is kept as it is. */
  lemma FlattenDeepLeaf(a: Arg)
    requires IsFlat(a)
    ensures FlattenDeep([a]) == [a]
  {
    assert [a][1..] == [];
  }

  /** A nested argument list is spliced in after being flattened itself. */
  lemma FlattenDeepNested(xs: seq<Arg>)
    ensures FlattenDeep([Nested(xs)]) == FlattenDeep(xs)
  {
    assert [Nested(xs)][1..] == [];
  }

  /** An array value is spliced in, its own arrays flattened in turn. */
  lemma FlattenDeepArray(vs: seq<Value>)
    ensures FlattenDeep([Data(Arr(vs))]) == FlattenValues(vs)
  {
    assert [Data(Arr(vs))][1..] == [];
  }

  lemma {:induction false} FlattenValuesConcat(a: seq<Value>, b: seq<Value>)
    ensures FlattenValues(a + b) == FlattenValues(a) + FlattenValues(b)
  {
    if a == [] {
      assert a + b == b;
    } else {
      assert (a + b)[0] == a[0];
      assert (a + b)[1..] == a[1..] + b;
      FlattenValuesConcat(a[1..], b);
    }
  }

  /** Inside an array value, a non-array is kept and an array is spliced. */
  lemma FlattenValuesSingle(v: Value)
    ensures FlattenValues([v]) == if v.Arr? then FlattenValues(v.items) else [Data(v)]
  {
    assert [v][1..] == [];
  }

  lemma FlattenDeepIdempotent(args: seq<Arg>)
    ensures FlattenDeep(FlattenDeep(args)) == FlattenDeep(args)
  {
    FlattenDeepOfFlat(FlattenDeep(args));
  }

  // ---------------------------------------------------------------------
  // compose

  const ComposeError := TypeError("compose() expects only functions as parameters.")

  /** `fns.reduceRight((current, fn) => ..., current)` over an already
      flattened list: the last element is applied first; a non-function
      throws the compose TypeError once the fold reaches it. */
  function ReduceRight(fns: seq<Arg>, current: Value): (r: Result<Value>)
    ensures fns == [] ==> r == Ok(current)
    ensures ThrowExplained(fns, r)
    decreases |fns|
  {
    if fns == [] then Ok(current)
    else
      var fn := fns[|fns| - 1];
      if fn.Fun? then
        match fn.call(current)
        case Ok(next) =>
          var r := ReduceRight(fns[..|fns| - 1], next);
          StageThrewPrefix(fns, r);
          r
        case Throw(e) =>
          assert fns[|fns| - 1].call(current) == Throw(e);
          Throw(e)
      else
        assert !fns[|fns| - 1].Fun?;
        Throw(ComposeError)
  }

  /** Some function in the list throws `e` on some input. */
  ghost predicate StageThrew(fns: seq<Arg>, e: Error)
  {
    exists i, v :: 0 <= i < |fns| && fns[i].Fun? && fns[i].call(v) == Throw(e)
  }

  /** An exception of the fold is either the compose TypeError, when the list
      does hold a non-function, or one that a function of the list throws. */
  ghost predicate ThrowExplained(fns: seq<Arg>, r: Result<Value>)
  {
    r.Throw? ==> (r.error == ComposeError && exists i :: 0 <= i < |fns| && !fns[i].Fun?)
                 || StageThrew(fns, r.error)
  }

  /** What explains an exception of the list without its last element
      explains it for the whole list. */
  lemma StageThrewPrefix(fns: seq<Arg>, r: Result<Value>)
    requires fns != [] && ThrowExplained(fns[..|fns| - 1], r)
    ensures ThrowExplained(fns, r)
  {
    var init := fns[..|fns| - 1];
    if r.Throw? && StageThrew(init, r.error) {
      var i, v :| 0 <= i < |init| && init[i].Fun? && init[i].call(v) == Throw(r.error);
      assert fns[i] == init[i];
    }
    if r.Throw? && r.error == ComposeError && exists i :: 0 <= i < |init| && !init[i].Fun? {
      var i :| 0 <= i < |init| && !init[i].Fun?;
      assert fns[i] == init[i];
    }
  }

  /** `compose(...fns)`: building the composed function never fails; the
      arguments are flattened and checked each time it is called. */
  function Compose(fns: seq<Arg>): (composed: Value -> Result<Value>)
    ensures FlattenDeep(fns) == [] ==> forall x :: composed(x) == Ok(x)
    ensures forall x :: ThrowExplained(FlattenDeep(fns), composed(x))
  {
    arg => ReduceRight(FlattenDeep(fns), arg)
  }

  /** Folding over `a + b` runs `b`'s stages first, then `a`'s. */
  lemma {:induction false} ReduceRightConcat(a: seq<Arg>, b: seq<Arg>, x: Value)
    ensures ReduceRight(a + b, x) == ReduceRight(b, x).Then(y => ReduceRight(a, y))
    decreases |b|
  {
    if b == [] {
      assert a + b == a;
    } else {
      var b' := b[..|b| - 1];
      assert (a + b)[|a + b| - 1] == b[|b| - 1];
      assert (a + b)[..|a + b| - 1] == a + b';
      var fn := b[|b| - 1];
      if fn.Fun? {
        match fn.call(x)
        case Ok(next) => ReduceRightConcat(a, b', next);
        case Throw(e) =>
      }
    }
  }

  /** compose(a..., b...) is compose(a...) applied after compose(b...). */
  lemma ComposeConcat(a: seq<Arg>, b: seq<Arg>, x: Value)
    ensures Compose(a + b)(x) == Compose(b)(x).Then(Compose(a))
  {
    FlattenDeepConcat(a, b);
    ReduceRightConcat(FlattenDeep(a), FlattenDeep(b), x);
    assert Compose(a) == (y => ReduceRight(FlattenDeep(a), y));
  }

  /** compose() with no functions returns its argument. */
  lemma ComposeEmpty(x: Value)
    ensures Compose([])(x) == Ok(x)
  {
  }

  /** compose(f) is f. */
  lemma ComposeSingle(f: Value -> Result<Value>, x: Value)
    ensures Compose([Fun(f)])(x) == f(x)
  {
    assert FlattenDeep([Fun(f)]) == [Fun(f)];
    assert [Fun(f)][..0] == [];
    match f(x)
    case Ok(y) => assert ReduceRight([], y) == Ok(y);
    case Throw(e) =>
  }

  /** compose(f, g, h)(x) runs h, then g, then f. */
  lemma ComposeThree(f: Value -> Result<Value>, g: Value -> Result<Value>, h: Value -> Result<Value>, x: Value)
    ensures Compose([Fun(f), Fun(g), Fun(h)])(x) == h(x).Then(g).Then(f)
  {
    assert [Fun(f), Fun(g), Fun(h)] == [Fun(f)] + ([Fun(g)] + [Fun(h)]);
    ComposeConcat([Fun(f)], [Fun(g)] + [Fun(h)], x);
    ComposeConcat([Fun(g)], [Fun(h)], x);
    ComposeSingle(h, x);
    if h(x).Ok? {
      var y := h(x).value;
      ComposeSingle(g, y);
      if g(y).Ok? {
        ComposeSingle(f, g(y).value);
      }
    }
  }

  /** For functions that never throw, compose(f, g, h)(x) == f(g(h(x))). */
  lemma ComposeThreeTotal(f: Value -> Value, g: Value -> Value, h: Value -> Value, x: Value)
    ensures Compose([Total(f), Total(g), Total(h)])(x) == Ok(f(g(h(x))))
  {
    ComposeThree(Total(f).call, Total(g).call, Total(h).call, x);
  }

  /** Nesting is irrelevant: compose sees only the flattened list. */
  lemma ComposeFlattens(args: seq<Arg>, x: Value)
    ensures Compose(args)(x) == Compose(FlattenDeep(args))(x)
  {
    FlattenDeepIdempotent(args);
  }

  /** compose([f, [g]], h) behaves as compose(f, g, h). */
  lemma ComposeNestedExample(f: Value -> Result<Value>, g: Value -> Result<Value>, h: Value -> Result<Value>, x: Value)
    ensures Compose([Nested([Fun(f), Nested([Fun(g)])]), Fun(h)])(x) == Compose([Fun(f), Fun(g), Fun(h)])(x)
  {
    var inner := [Fun(f), Nested([Fun(g)])];
    assert FlattenDeep([Fun(g)]) == [Fun(g)];
    assert FlattenDeep([Nested([Fun(g)])]) == [Fun(g)];
    assert inner == [Fun(f)] + [Nested([Fun(g)])];
    FlattenDeepConcat([Fun(f)], [Nested([Fun(g)])]);
    assert FlattenDeep(inner) == [Fun(f), Fun(g)];
    assert [Nested(inner), Fun(h)] == [Nested(inner)] + [Fun(h)];
    FlattenDeepConcat([Nested(inner)], [Fun(h)]);
    assert FlattenDeep([Nested(inner), Fun(h)]) == [Fun(f), Fun(g), Fun(h)];
    FlattenDeepOfFlat([Fun(f), Fun(g), Fun(h)]);
  }

  ghost predicate NeverThrows(a: Arg)
  {
    a.Fun? ==> forall v :: a.call(v).Ok?
  }

  /** When no function in the list throws, the fold rejects with the compose
      TypeError exactly when some element is not a function, and otherwise
      succeeds. */
  lemma {:induction false} ReduceRightRejects(fns: seq<Arg>, x: Value)
    requires forall i :: 0 <= i < |fns| ==> NeverThrows(fns[i])
    ensures ReduceRight(fns, x) == Throw(ComposeError) <==> exists i :: 0 <= i < |fns| && !fns[i].Fun?
    ensures ReduceRight(fns, x).Ok? <==> forall i :: 0 <= i < |fns| ==> fns[i].Fun?
    decreases |fns|
  {
    if fns != [] {
      var rest := fns[..|fns| - 1];
      var fn := fns[|fns| - 1];
      assert forall i :: 0 <= i < |rest| ==> rest[i] == fns[i];
      if fn.Fun? {
        assert NeverThrows(fn);
        var next := fn.call(x).value;
        ReduceRightRejects(rest, next);
      } else {
        assert !fns[|fns| - 1].Fun?;
      }
    }
  }

  /** compose(f, 42): the composed function throws the TypeError when it is
      called, for every argument, though building it succeeded. */
  lemma ComposeRejectsNonFunction(args: seq<Arg>, x: Value)
    requires forall i :: 0 <= i < |FlattenDeep(args)| ==> NeverThrows(FlattenDeep(args)[i])
    ensures Compose(args)(x) == Throw(ComposeError) <==>
            exists i :: 0 <= i < |FlattenDeep(args)| && !FlattenDeep(args)[i].Fun?
  {
    assert Compose(args)(x) == ReduceRight(FlattenDeep(args), x);
    ReduceRightRejects(FlattenDeep(args), x);
  }

  // ---------------------------------------------------------------------
  // enforceHttpsUrl and santinizeNumber

  /** Length of the match of /^(https?:)?\/\// at the start of `s`, 0 if none. */
  function SchemePrefixLength(s: string): (k: nat)
    ensures k in {0, 2, 7, 8} && k <= |s|
    ensures k != 0 ==> s[k - 2..k] == "//"
  {
    if StartsWith(s, "https://") then 8
    else if StartsWith(s, "http://") then 7
    else if StartsWith(s, "//") then 2
    else 0
  }

  /** A string starts with at most one of "//", "http://" and "https://". */
  lemma SchemePrefixesDisjoint(s: string)
    ensures StartsWith(s, "//") ==> !StartsWith(s, "http://") && !StartsWith(s, "https://")
    ensures StartsWith(s, "http://") ==> !StartsWith(s, "https://")
  {
    if StartsWith(s, "//") {
      assert s[0] == "//"[0];
    }
    if StartsWith(s, "http://") {
      assert s[4] == "http://"[4];
    }
    if StartsWith(s, "https://") {
      assert s[0] == "https://"[0] && s[4] == "https://"[4];
    }
  }

  /** `enforceHttpsUrl(url)`: a leading "//", "http://" or "https://" becomes
      "https://"; other strings are unchanged; non-strings give null. */
  function EnforceHttpsUrl(url: Value): (r: Value)
    ensures !url.Str? ==> r == Null
    ensures url.Str? && StartsWith(url.s, "//") ==> r == Str("https://" + url.s[2..])
    ensures url.Str? && StartsWith(url.s, "http://") ==> r == Str("https://" + url.s[7..])
    ensures url.Str? && StartsWith(url.s, "https://") ==> r == url
    ensures url.Str? && !StartsWith(url.s, "//") && !StartsWith(url.s, "http://") && !StartsWith(url.s, "https://")
            ==> r == url
  {
    if url.Str? then
      SchemePrefixesDisjoint(url.s);
      var k := SchemePrefixLength(url.s);
      if k == 0 then url
      else
        assert k == 8 ==> url.s == "https://" + url.s[8..];
        Str("https://" + url.s[k..])
    else Null
  }

  lemma EnforceHttpsUrlIdempotent(url: Value)
    ensures EnforceHttpsUrl(EnforceHttpsUrl(url)) == EnforceHttpsUrl(url)
  {
    var r := EnforceHttpsUrl(url);
    if url.Str? && r != url {
      assert StartsWith(r.s, "https://");
    }
  }

  /** A string result starts with "https://" exactly when the input had one of
      the three recognised prefixes or already that one. */
  lemma EnforceHttpsUrlScheme(s: string)
    ensures StartsWith(EnforceHttpsUrl(Str(s)).s, "https://") <==>
            StartsWith(s, "//") || StartsWith(s, "http://") || StartsWith(s, "https://")
  {
    var r := EnforceHttpsUrl(Str(s)).s;
    if StartsWith(r, "https://") && !StartsWith(s, "//") && !StartsWith(s, "http://") {
      assert r == s;
    }
  }

  /** The characters /[^0-9-.]/g does not remove. */
  predicate IsNumberChar(c: char)
  {
    IsDigit(c) || c == '-' || c == '.'
  }

  /** `santinizeNumber(number)`: the string with every character other than a
      digit, '-' or '.' removed; non-strings give null. */
  function SanitizeNumber(number: Value): (r: Value)
    ensures !number.Str? ==> r == Null
    ensures number.Str? ==> r.Str? && |r.s| <= |number.s|
    ensures number.Str? ==> forall i :: 0 <= i < |r.s| ==> IsNumberChar(r.s[i])
    ensures number.Str? ==> IsSubsequence(r.s, number.s)
    ensures number.Str? ==> forall c :: c in number.s && IsNumberChar(c) ==> c in r.s
  {
    if number.Str? then
      FilterIsSubsequence(number.s, IsNumberChar);
      forall c | c in number.s && IsNumberChar(c) ensures c in Filter(number.s, IsNumberChar) {
        FilterMembership(number.s, IsNumberChar, c);
      }
      Str(Filter(number.s, IsNumberChar))
    else Null
  }

  lemma SanitizeNumberIdempotent(number: Value)
    ensures SanitizeNumber(SanitizeNumber(number)) == SanitizeNumber(number)
  {
    if number.Str? {
      FilterIdempotent(number.s, IsNumberChar);
    }
  }

  /** Sanitising works character by character: it distributes over
      concatenation and leaves a string made of number characters alone. */
  lemma SanitizeNumberConcat(a: string, b: string)
    ensures SanitizeNumber(Str(a + b)) == Str(SanitizeNumber(Str(a)).s + SanitizeNumber(Str(b)).s)
  {
    FilterConcat(a, b, IsNumberChar);
  }

  lemma SanitizeNumberOfNumeric(s: string)
    requires forall i :: 0 <= i < |s| ==> IsNumberChar(s[i])
    ensures SanitizeNumber(Str(s)) == Str(s)
  {
    FilterKeepsAccepted(s, IsNumberChar);
  }

  // ---------------------------------------------------------------------
  // withoutNulls, arrayPairsToObject, fromPairsToObject

  predicate NotNull(v: Value) { v != Null }

  /** `withoutNulls(arr)`: the non-null elements of an array, in order;
      anything that is not an array gives []. Undefined is kept. */
  function WithoutNulls(arr: Value): (r: Value)
    ensures r.Arr? && Null !in r.items
    ensures !arr.Arr? ==> r.items == []
    ensures arr.Arr? ==> |r.items| <= |arr.items| && IsSubsequence(r.items, arr.items)
    ensures arr.Arr? ==> forall x :: x in arr.items && x != Null ==> x in r.items
    ensures arr.Arr? ==> forall i :: 0 <= i < |arr.items| && arr.items[i] != Null ==>
              multiset(r.items)[arr.items[i]] == multiset(arr.items)[arr.items[i]]
    ensures arr.Arr? ==> r.items == Filter(arr.items, NotNull)
  {
    if arr.Arr? then
      var kept := Filter(arr.items, NotNull);
      FilterIsSubsequence(arr.items, NotNull);
      forall x | x in arr.items && x != Null ensures x in kept {
        FilterMembership(arr.items, NotNull, x);
      }
      assert Null !in kept by {
        FilterMembership(arr.items, NotNull, Null);
      }
      forall i | 0 <= i < |arr.items| && arr.items[i] != Null
        ensures multiset(kept)[arr.items[i]] == multiset(arr.items)[arr.items[i]]
      {
        FilterMultiset(arr.items, NotNull, arr.items[i]);
      }
      Arr(kept)
    else Arr([])
  }

  /** An array without nulls passes through unchanged. */
  lemma WithoutNullsOfNullFree(items: seq<Value>)
    requires Null !in items
    ensures WithoutNulls(Arr(items)) == Arr(items)
  {
    FilterKeepsAccepted(items, NotNull);
  }

  /** withoutNulls works element by element: it distributes over
      concatenation. */
  lemma WithoutNullsConcat(a: seq<Value>, b: seq<Value>)
    ensures WithoutNulls(Arr(a + b)).items == WithoutNulls(Arr(a)).items + WithoutNulls(Arr(b)).items
  {
    FilterConcat(a, b, NotNull);
  }

  /** `m` holds exactly the entries `{0: xs[0], 1: xs[1], ...}`: its keys are
      the numerals "0" .. String(|xs| - 1), each mapped to its element. */
  ghost predicate IndexedBy(m: map<string, Value>, xs: seq<Value>)
  {
    (forall i: nat :: i < |xs| ==> NumberToString(i) in m && m[NumberToString(i)] == xs[i]) &&
    (forall k :: k in m ==> exists i: nat :: i < |xs| && k == NumberToString(i))
  }

  /** The entries that spreading an array gives. */
  function IndexEntries(xs: seq<Value>): map<string, Value>
  {
    if xs == [] then map[]
    else IndexEntries(xs[..|xs| - 1])[NumberToString(|xs| - 1) := xs[|xs| - 1]]
  }

  lemma {:induction false} IndexEntriesIndexed(xs: seq<Value>)
    ensures IndexedBy(IndexEntries(xs), xs)
  {
    if xs != [] {
      var n := |xs| - 1;
      var init := xs[..n];
      var m := IndexEntries(xs);
      IndexEntriesIndexed(init);
      NumberToStringInjective(n);
      assert m == IndexEntries(init)[NumberToString(n) := xs[n]];
      forall i: nat | i < |xs|
        ensures NumberToString(i) in m && m[NumberToString(i)] == xs[i]
      {
        if i < n {
          assert init[i] == xs[i];
          assert NumberToString(i) != NumberToString(n);
        }
      }
      forall k | k in m
        ensures exists i: nat :: i < |xs| && k == NumberToString(i)
      {
        if k != NumberToString(n) {
          assert k in IndexEntries(init);
        }
      }
    }
  }

  /** A string's characters, each as a one-character string. */
  function CharValues(s: string): (cs: seq<Value>)
    ensures |cs| == |s| && forall i :: 0 <= i < |s| ==> cs[i] == Str([s[i]])
  {
    seq(|s|, i requires 0 <= i < |s| => Str([s[i]]))
  }

  /** The own enumerable properties that `{...pair}` copies out of `pair`:
      an object's own entries, and nothing for a number, null, undefined or
      an element handle (arrays and strings: `SpreadIndexed`). */
  function Spread(pair: Value): (r: map<string, Value>)
    ensures pair.Obj? ==> r == pair.props
    ensures !(pair.Obj? || pair.Arr? || pair.Str?) ==> r == map[]
  {
    match pair
    case Obj(m) => m
    case Arr(xs) => IndexEntries(xs)
    case Str(s) => IndexEntries(CharValues(s))
    case _ => map[]
  }

  /** Spreading an array copies its elements under their index numerals, and
      spreading a string copies its characters the same way. */
  lemma SpreadIndexed(pair: Value)
    ensures pair.Arr? ==> IndexedBy(Spread(pair), pair.items)
    ensures pair.Str? ==> IndexedBy(Spread(pair), CharValues(pair.s))
  {
    match pair
    case Arr(xs) => IndexEntriesIndexed(xs);
    case Str(s) => IndexEntriesIndexed(CharValues(s));
    case _ =>
  }

  /** `pairs.reduce((obj, pair) => ({...obj, ...pair}), {})`. */
  function MergePairs(pairs: seq<Value>): (merged: map<string, Value>)
    ensures pairs != [] ==> forall k :: k in Spread(pairs[|pairs| - 1]) ==>
              k in merged && merged[k] == Spread(pairs[|pairs| - 1])[k]
  {
    if pairs == [] then map[]
    else MergePairs(pairs[..|pairs| - 1]) + Spread(pairs[|pairs| - 1])
  }

  /** Nothing is invented: every key of the folded object, with its value,
      comes from one of the pairs. */
  lemma {:induction false} MergePairsValuesFrom(pairs: seq<Value>)
    ensures ValuesFromPairs(MergePairs(pairs), pairs)
  {
    if pairs != [] {
      var init := pairs[..|pairs| - 1];
      MergePairsValuesFrom(init);
      ValuesFromPairsExtend(MergePairs(init), init, pairs[|pairs| - 1]);
      assert init + [pairs[|pairs| - 1]] == pairs;
    }
  }

  /** Every key of `m` and its value come from some pair that holds them. */
  ghost predicate ValuesFromPairs(m: map<string, Value>, pairs: seq<Value>)
  {
    forall k :: k in m ==> exists i :: 0 <= i < |pairs| && k in Spread(pairs[i]) && m[k] == Spread(pairs[i])[k]
  }

  lemma ValuesFromPairsExtend(m: map<string, Value>, init: seq<Value>, last: Value)
    requires ValuesFromPairs(m, init)
    ensures ValuesFromPairs(m + Spread(last), init + [last])
  {
    var pairs := init + [last];
    forall k | k in m + Spread(last)
      ensures exists i :: 0 <= i < |pairs| && k in Spread(pairs[i]) && (m + Spread(last))[k] == Spread(pairs[i])[k]
    {
      if k in Spread(last) {
        assert pairs[|init|] == last;
      } else {
        var i :| 0 <= i < |init| && k in Spread(init[i]) && m[k] == Spread(init[i])[k];
        assert pairs[i] == init[i];
      }
    }
  }

  /** `arrayPairsToObject(arr)`: arrays fold into one object; anything else
      has no `reduce` method, so the call throws. */
  function ArrayPairsToObject(arr: Value): (r: Result<Value>)
    ensures r.Ok? <==> arr.Arr?
    ensures r.Ok? ==> r.value.Obj? && forall k :: k in r.value.props <==> exists i :: 0 <= i < |arr.items| && k in Spread(arr.items[i])
  {
    match arr
    case Arr(items) =>
      forall k ensures k in MergePairs(items) <==> exists i :: 0 <= i < |items| && k in Spread(items[i]) {
        MergePairsKeys(items, k);
      }
      Ok(Obj(MergePairs(items)))
    case Null => Throw(TypeError("Cannot read properties of null (reading 'reduce')"))
    case Undefined => Throw(TypeError("Cannot read properties of undefined (reading 'reduce')"))
    case _ => Throw(TypeError("arr.reduce is not a function"))
  }

  lemma {:induction false} MergePairsKeys(pairs: seq<Value>, k: string)
    ensures k in MergePairs(pairs) <==> exists i :: 0 <= i < |pairs| && k in Spread(pairs[i])
  {
    if pairs != [] {
      var init := pairs[..|pairs| - 1];
      MergePairsKeys(init, k);
      assert forall i :: 0 <= i < |init| ==> init[i] == pairs[i];
      if exists i :: 0 <= i < |pairs| && k in Spread(pairs[i]) {
        var i :| 0 <= i < |pairs| && k in Spread(pairs[i]);
        if i < |init| {
          assert k in Spread(init[i]);
        }
      }
    }
  }

  /** Last write wins: a key takes its value from the last pair that has it. */
  lemma {:induction false} MergePairsLastWins(pairs: seq<Value>, i: nat, k: string)
    requires i < |pairs| && k in Spread(pairs[i])
    requires forall j :: i < j < |pairs| ==> k !in Spread(pairs[j])
    ensures k in MergePairs(pairs) && MergePairs(pairs)[k] == Spread(pairs[i])[k]
  {
    var init := pairs[..|pairs| - 1];
    if i < |pairs| - 1 {
      assert init[i] == pairs[i];
      assert forall j :: i < j < |init| ==> init[j] == pairs[j];
      MergePairsLastWins(init, i, k);
    }
  }

  /** Folding one more pair spreads it over what the others gave. */
  lemma MergePairsSnoc(init: seq<Value>, last: Value)
    ensures MergePairs(init + [last]) == MergePairs(init) + Spread(last)
  {
    assert (init + [last])[..|init|] == init;
  }

  /** Null pairs spread to nothing, so removing them changes no key. */
  lemma {:induction false} MergePairsWithoutNulls(pairs: seq<Value>)
    ensures MergePairs(Filter(pairs, NotNull)) == MergePairs(pairs)
  {
    if pairs != [] {
      var init, last := pairs[..|pairs| - 1], pairs[|pairs| - 1];
      assert pairs == init + [last];
      FilterConcat(init, [last], NotNull);
      MergePairsWithoutNulls(init);
      var f := Filter(init, NotNull);
      assert [last][1..] == [];
      if last != Null {
        assert Filter([last], NotNull) == [last];
        MergePairsSnoc(f, last);
        MergePairsSnoc(init, last);
      } else {
        assert Filter([last], NotNull) == [];
        assert f + [] == f;
        MergeNull(init);
      }
    }
  }

  /** A trailing null pair adds no key. */
  lemma MergeNull(pairs: seq<Value>)
    ensures MergePairs(pairs + [Null]) == MergePairs(pairs)
  {
    MergePairsSnoc(pairs, Null);
    var m := MergePairs(pairs);
    assert m + map[] == m;
  }

  /** `fromPairsToObject = compose(arrayPairsToObject, withoutNulls)`. It never
      throws: non-arrays become [] first, so they fold to {}; for an array it
      agrees with arrayPairsToObject, since null pairs add no key. */
  function FromPairsToObject(pairs: Value): (r: Result<Value>)
    ensures r == Ok(Obj(if pairs.Arr? then MergePairs(pairs.items) else map[]))
    ensures pairs.Arr? ==> r == ArrayPairsToObject(pairs)
  {
    var stages := [Fun(ArrayPairsToObject), Total(WithoutNulls)];
    ComposeStages(ArrayPairsToObject, Total(WithoutNulls).call, pairs);
    if pairs.Arr? then MergePairsWithoutNulls(pairs.items); Compose(stages)(pairs)
    else Compose(stages)(pairs)
  }

  lemma ComposeStages(f: Value -> Result<Value>, g: Value -> Result<Value>, x: Value)
    ensures Compose([Fun(f), Fun(g)])(x) == g(x).Then(f)
  {
    ComposeConcat([Fun(f)], [Fun(g)], x);
    ComposeSingle(g, x);
    if g(x).Ok? {
      ComposeSingle(f, g(x).value);
    }
  }

  // ---------------------------------------------------------------------
  // Element extractors

  /** JavaScript truthiness: undefined, null, 0 and "" are the falsy
      values among those modelled. */
  function Truthy(v: Value): (truthy: bool)
    ensures !truthy <==> v == Undefined || v == Null || v == Num(0) || v == Str([])
  {
    match v
    case Undefined => false
    case Null => false
    case Num(n) => n != 0
    case Str(s) => s != []
    case _ => true
  }

  /** `(t && t.trim()) || null` for a string t. */
  function TrimmedOrNull(t: string): (r: Value)
    ensures r == Null || (r.Str? && r.s != [] && r.s == Trim(t))
    ensures r == Null <==> Trim(t) == []
  {
    if Trim(t) == [] then Null else Str(Trim(t))
  }

  const TrimNotAFunction := TypeError("elem.text.trim is not a function")

  /** `fetchElemInnerText(elem)` as written: `elem.text` is read as a string
      and trimmed, giving the trimmed text, or null when there is none, it
      trims to nothing, or the element has no `text`. Reading a property of
      null or undefined throws, and so does calling `trim` on a truthy `text`
      that is not a string, such as the `text` method of a cheerio handle. */
  function FetchElemInnerText(elem: Value): (r: Result<Value>)
    ensures (elem == Null || elem == Undefined) ==> r.Throw?
    ensures r.Ok? ==> r.value == Null || (r.value.Str? && r.value.s != [] && Clean(r.value.s))
    ensures elem.Elem? && elem.handle.text.TextMethod? ==> r == Throw(TrimNotAFunction)
    ensures elem.Elem? && elem.handle.text.NoText? ==> r == Ok(Null)
    ensures elem.Elem? && elem.handle.text.TextProperty? ==>
              r.Ok? && (r.value.Str? <==> Trim(elem.handle.text.s) != [])
    ensures elem.Elem? && elem.handle.text.TextProperty? && r.value.Str? ==> r.value.s == Trim(elem.handle.text.s)
  {
    match elem
    case Null => Throw(TypeError("Cannot read properties of null (reading 'text')"))
    case Undefined => Throw(TypeError("Cannot read properties of undefined (reading 'text')"))
    case Elem(h) =>
      if h.text.NoText? then Ok(Null)
      else if h.text.TextProperty? then Ok(TrimmedOrNull(h.text.s))
      else Throw(TrimNotAFunction)
    case Obj(m) =>
      if "text" !in m || !Truthy(m["text"]) then Ok(Null)
      else if m["text"].Str? then Ok(TrimmedOrNull(m["text"].s))
      else Throw(TrimNotAFunction)
    case _ => Ok(Null)
  }

  /** The evidently intended `(elem.text && elem.text().trim()) || null`:
      `text` is called, as cheerio's handles require, and its result trimmed.
      A truthy `text` that is not a method now throws instead. */
  function FetchElemInnerTextIntended(elem: Value): (r: Result<Value>)
    ensures (elem == Null || elem == Undefined) ==> r.Throw?
    ensures r.Ok? ==> r.value == Null || (r.value.Str? && r.value.s != [] && Clean(r.value.s))
    ensures elem.Elem? && elem.handle.text.TextMethod? ==>
              r.Ok? && (r.value.Str? <==> Trim(elem.handle.text.contents) != [])
    ensures elem.Elem? && elem.handle.text.TextMethod? && r.value.Str? ==> r.value.s == Trim(elem.handle.text.contents)
    ensures elem.Elem? && elem.handle.text.NoText? ==> r == FetchElemInnerText(elem)
  {
    match elem
    case Null => Throw(TypeError("Cannot read properties of null (reading 'text')"))
    case Undefined => Throw(TypeError("Cannot read properties of undefined (reading 'text')"))
    case Elem(h) =>
      if h.text.NoText? then Ok(Null)
      else if h.text.TextMethod? then Ok(TrimmedOrNull(h.text.contents))
      else if h.text.s == [] then Ok(Null)
      else Throw(TypeError("elem.text is not a function"))
    case Obj(m) =>
      if "text" !in m || !Truthy(m["text"]) then Ok(Null)
      else Throw(TypeError("elem.text is not a function"))
    case _ => Ok(Null)
  }

  /** A cheerio handle for `<td> 7.650 </td>`: the code as written throws,
      the intended reading gives "7.650". */
  lemma CheerioTextExample()
    ensures FetchElemInnerText(Elem(Handle(TextMethod(" 7.650 "), Some(map[])))) == Throw(TrimNotAFunction)
    ensures FetchElemInnerTextIntended(Elem(Handle(TextMethod(" 7.650 "), Some(map[])))) == Ok(Str("7.650"))
  {
    var s := " 7.650 ";
    assert s[1..1 + |"7.650"|] == "7.650";
    assert TrimmedAt(s, "7.650", 1);
    TrimUnique(s, "7.650", 1);
  }

  /** `fetchElemAttribute(attribute)(elem)`: the attribute's value as stored
      (not trimmed), or null when it is missing or empty, or when the element
      has no `attr` accessor. */
  function FetchElemAttribute(attribute: string, elem: Value): (r: Result<Value>)
    ensures (elem == Null || elem == Undefined) ==> r.Throw?
    ensures elem.Elem? ==> r.Ok?
    ensures r.Ok? ==> r.value == Null || (r.value.Str? && r.value.s != [])
    ensures elem.Elem? ==> (r.value.Str? <==> elem.handle.attr.Some? && attribute in elem.handle.attr.value
                                              && elem.handle.attr.value[attribute] != [])
    ensures elem.Elem? && r.value.Str? ==> r.value.s == elem.handle.attr.value[attribute]
  {
    match elem
    case Null => Throw(TypeError("Cannot read properties of null (reading 'attr')"))
    case Undefined => Throw(TypeError("Cannot read properties of undefined (reading 'attr')"))
    case Elem(h) =>
      if h.attr.Some? && attribute in h.attr.value && h.attr.value[attribute] != [] then
        Ok(Str(h.attr.value[attribute]))
      else Ok(Null)
    case Obj(m) =>
      if "attr" !in m || !Truthy(m["attr"]) then Ok(Null)
      else Throw(TypeError("elem.attr is not a function"))
    case _ => Ok(Null)
  }

  /** Calling something the source expects to be a function. */
  function Call(f: Arg, x: Value, name: string): Result<Value>
  {
    if f.Fun? then f.call(x) else Throw(TypeError(name + " is not a function"))
  }

  /** What cheerio's `.map` keeps of one callback result: null and undefined
      are dropped, an array is spliced in, anything else is one element. */
  function Splice(v: Value): (r: seq<Value>)
    ensures v.Arr? ==> r == v.items
    ensures !v.Arr? ==> |r| <= 1 && (r == [] <==> !IsPresent(v)) && (r != [] ==> r[0] == v)
  {
    if v == Null || v == Undefined then [] else if v.Arr? then v.items else [v]
  }

  /** `elems.map((i, element) => extractor($(element))).get()`, element by
      element in document order; the first exception ends the walk. */
  function MapElems(extractor: Arg, elems: seq<Value>, wrap: Value -> Value): (r: Result<seq<Value>>)
    ensures r.Ok? ==> forall i :: 0 <= i < |elems| ==> Call(extractor, wrap(elems[i]), "extractor").Ok?
    ensures r.Throw? ==> exists i :: FailsFirstAt(extractor, elems, wrap, i) &&
                                     r.error == Call(extractor, wrap(elems[i]), "extractor").error
  {
    if elems == [] then Ok([])
    else
      match Call(extractor, wrap(elems[0]), "extractor")
      case Throw(e) =>
        assert FailsFirstAt(extractor, elems, wrap, 0);
        Throw(e)
      case Ok(v) =>
        FailsFirstAtShift(extractor, elems, wrap);
        match MapElems(extractor, elems[1..], wrap)
        case Throw(e) => Throw(e)
        case Ok(rest) => Ok(Splice(v) + rest)
  }

  /** One element contributes what `Splice` keeps of its callback result. */
  lemma MapElemsSingle(extractor: Arg, e: Value, wrap: Value -> Value)
    ensures MapElems(extractor, [e], wrap) == Call(extractor, wrap(e), "extractor").Then(v => Ok(Splice(v)))
  {
    assert [e][1..] == [];
    var c := Call(extractor, wrap(e), "extractor");
    if c.Ok? {
      assert Splice(c.value) + [] == Splice(c.value);
    }
  }

  /** The walk over `a + b` collects `a`'s values, then `b`'s; an exception
      in `a` stops it before `b` is visited. */
  lemma {:induction false} MapElemsConcat(extractor: Arg, a: seq<Value>, b: seq<Value>, wrap: Value -> Value)
    ensures MapElems(extractor, a + b, wrap) ==
            MapElems(extractor, a, wrap).Then(x => MapElems(extractor, b, wrap).Then(y => Ok(x + y)))
    decreases |a|
  {
    var mb := MapElems(extractor, b, wrap);
    if a == [] {
      assert a + b == b;
      if mb.Ok? {
        assert [] + mb.value == mb.value;
      }
    } else {
      assert (a + b)[0] == a[0] && (a + b)[1..] == a[1..] + b;
      MapElemsConcat(extractor, a[1..], b, wrap);
      var c := Call(extractor, wrap(a[0]), "extractor");
      if c.Ok? {
        var mt := MapElems(extractor, a[1..], wrap);
        if mt.Ok? && mb.Ok? {
          assert Splice(c.value) + (mt.value + mb.value) == (Splice(c.value) + mt.value) + mb.value;
        }
      }
    }
  }

  /** Element i is the first one on which the extractor throws. */
  ghost predicate FailsFirstAt(extractor: Arg, elems: seq<Value>, wrap: Value -> Value, i: int)
  {
    0 <= i < |elems| && Call(extractor, wrap(elems[i]), "extractor").Throw?
    && forall j :: 0 <= j < i ==> Call(extractor, wrap(elems[j]), "extractor").Ok?
  }

  lemma FailsFirstAtShift(extractor: Arg, elems: seq<Value>, wrap: Value -> Value)
    requires elems != [] && Call(extractor, wrap(elems[0]), "extractor").Ok?
    ensures forall i :: FailsFirstAt(extractor, elems[1..], wrap, i) ==> FailsFirstAt(extractor, elems, wrap, i + 1)
    ensures forall i :: 0 <= i < |elems| - 1 ==> elems[1..][i] == elems[i + 1]
  {
    forall i | FailsFirstAt(extractor, elems[1..], wrap, i) ensures FailsFirstAt(extractor, elems, wrap, i + 1) {
      forall j | 0 <= j < i + 1 ensures Call(extractor, wrap(elems[j]), "extractor").Ok? {
        if j > 0 {
          assert elems[j] == elems[1..][j - 1];
        }
      }
    }
  }

  /** `extractFromElems(extractor)(transform)(elems)($)`: the extracted values,
      passed through `transform` only when it is a function. */
  function ExtractFromElems(extractor: Arg, transform: Arg, elems: seq<Value>, wrap: Value -> Value): (r: Result<Value>)
    ensures MapElems(extractor, elems, wrap).Throw? ==> r == Throw(MapElems(extractor, elems, wrap).error)
    ensures MapElems(extractor, elems, wrap).Ok? && !transform.Fun? ==> r == Ok(Arr(MapElems(extractor, elems, wrap).value))
    ensures MapElems(extractor, elems, wrap).Ok? && transform.Fun? ==> r == transform.call(Arr(MapElems(extractor, elems, wrap).value))
  {
    match MapElems(extractor, elems, wrap)
    case Throw(e) => Throw(e)
    case Ok(results) => if transform.Fun? then transform.call(Arr(results)) else Ok(Arr(results))
  }

  /** The extractor returns, for every element, a value that is not an array. */
  ghost predicate ScalarResults(extractor: Arg, elems: seq<Value>, wrap: Value -> Value)
  {
    extractor.Fun? && forall i :: 0 <= i < |elems| ==> extractor.call(wrap(elems[i])).Ok? && !extractor.call(wrap(elems[i])).value.Arr?
  }

  ghost function Extracted(extractor: Arg, elems: seq<Value>, wrap: Value -> Value): (r: seq<Value>)
    requires ScalarResults(extractor, elems, wrap)
    ensures |r| == |elems|
    ensures forall i :: 0 <= i < |elems| ==> r[i] == extractor.call(wrap(elems[i])).value
  {
    seq(|elems|, i requires 0 <= i < |elems| => extractor.call(wrap(elems[i])).value)
  }

  predicate IsPresent(v: Value) { v != Null && v != Undefined }

  /** With non-array results, the collected values are the extractor's
      results in document order, with the null and undefined ones left out. */
  lemma {:induction false} MapElemsDropsAbsent(extractor: Arg, elems: seq<Value>, wrap: Value -> Value)
    requires ScalarResults(extractor, elems, wrap)
    ensures MapElems(extractor, elems, wrap) == Ok(Filter(Extracted(extractor, elems, wrap), IsPresent))
  {
    if elems != [] {
      var all := Extracted(extractor, elems, wrap);
      MapElemsDropsAbsent(extractor, elems[1..], wrap);
      assert Extracted(extractor, elems[1..], wrap) == all[1..];
    }
  }

  /** When no result is null, undefined or an array, there is exactly one
      result per element, in order. */
  lemma ExtractFromElemsOnePerElement(extractor: Arg, transform: Arg, elems: seq<Value>, wrap: Value -> Value)
    requires ScalarResults(extractor, elems, wrap)
    requires forall i :: 0 <= i < |elems| ==> IsPresent(extractor.call(wrap(elems[i])).value)
    requires !transform.Fun?
    ensures ExtractFromElems(extractor, transform, elems, wrap).Ok?
    ensures var r := ExtractFromElems(extractor, transform, elems, wrap).value;
            r.Arr? && |r.items| == |elems| &&
            forall i :: 0 <= i < |elems| ==> r.items[i] == extractor.call(wrap(elems[i])).value
  {
    MapElemsDropsAbsent(extractor, elems, wrap);
    FilterKeepsAccepted(Extracted(extractor, elems, wrap), IsPresent);
  }

  /** A non-function extractor throws as soon as there is an element. */
  lemma ExtractFromElemsRejectsNonFunction(extractor: Arg, transform: Arg, elems: seq<Value>, wrap: Value -> Value)
    requires !extractor.Fun? && elems != []
    ensures ExtractFromElems(extractor, transform, elems, wrap) == Throw(TypeError("extractor is not a function"))
  {
  }

  /** `extractNumber = compose(parseInt, santinizeNumber, fetchElemInnerText)`,
      with JavaScript's parseInt left as a parameter: parseInt is applied to
      the sanitised trimmed text, or to null when there is no text. */
  function ExtractNumber(parseInt: Value -> Value, elem: Value): (r: Result<Value>)
    ensures r == FetchElemInnerText(elem).Then(t => Ok(parseInt(SanitizeNumber(t))))
    ensures elem.Elem? && elem.handle.text.TextProperty? && Trim(elem.handle.text.s) != [] ==>
            r == Ok(parseInt(Str(Filter(Trim(elem.handle.text.s), IsNumberChar))))
    ensures elem.Elem? && (elem.handle.text.NoText? || (elem.handle.text.TextProperty? && Trim(elem.handle.text.s) == [])) ==>
            r == Ok(parseInt(Null))
    ensures elem.Elem? && elem.handle.text.TextMethod? ==> r == Throw(TrimNotAFunction)
  {
    ComposeThree(Total(parseInt).call, Total(SanitizeNumber).call, FetchElemInnerText, elem);
    Compose([Total(parseInt), Total(SanitizeNumber), Fun(FetchElemInnerText)])(elem)
  }

  /** extractNumber built on the intended text reading: on a cheerio handle it
      parses the sanitised trimmed text, or null when the text is blank. */
  function ExtractNumberIntended(parseInt: Value -> Value, elem: Value): (r: Result<Value>)
    ensures r == FetchElemInnerTextIntended(elem).Then(t => Ok(parseInt(SanitizeNumber(t))))
    ensures elem.Elem? && elem.handle.text.TextMethod? && Trim(elem.handle.text.contents) != [] ==>
            r == Ok(parseInt(Str(Filter(Trim(elem.handle.text.contents), IsNumberChar))))
    ensures elem.Elem? && elem.handle.text.TextMethod? && Trim(elem.handle.text.contents) == [] ==>
            r == Ok(parseInt(Null))
  {
    ComposeThree(Total(parseInt).call, Total(SanitizeNumber).call, FetchElemInnerTextIntended, elem);
    Compose([Total(parseInt), Total(SanitizeNumber), Fun(FetchElemInnerTextIntended)])(elem)
  }

  // ---------------------------------------------------------------------
  // sendResponse

  /** How the promise handed to sendResponse settled; a rejection carries the
      error's `status` property, if it has one. */
  datatype Settled = Fulfilled(data: Value) | Rejected(status: Option<int>)

  datatype Envelope = Success(data: Value) | Failure(code: int, message: string)

  datatype Reply = Reply(httpStatus: int, body: Envelope)

  /** `sendResponse(res)(request)`: success is wrapped as `{status: "success",
      data}` with HTTP 200; a failure replies with the error's status
      (500 when it has none) and a message that is "Not found" exactly for
      404. */
  function SendResponse(outcome: Settled): (r: Reply)
    ensures outcome.Fulfilled? ==> r == Reply(200, Success(outcome.data))
    ensures outcome.Rejected? ==> r.body.Failure? && r.httpStatus == r.body.code
    ensures outcome.Rejected? ==> r.body.code == (if outcome.status.Some? then outcome.status.value else 500)
    ensures outcome.Rejected? ==> (r.body.message == "Not found" <==> r.body.code == 404)
    ensures outcome.Rejected? ==> r.body.message in {"Not found", "Request failed"}
  {
    match outcome
    case Fulfilled(data) => Reply(200, Success(data))
    case Rejected(status) =>
      var code := if status.Some? then status.value else 500;
      Reply(code, Failure(code, if code == 404 then "Not found" else "Request failed"))
  }
}
