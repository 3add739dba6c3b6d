/** String primitives of the Rust standard library that the processor relies on:
    `str::trim`, `str::split` with a `char` pattern, and `[String]::join`. */
module Text {

  /** Rust's `char::is_whitespace`: the Unicode White_Space property. */
  predicate IsWs(c: char) {
    || '\t' <= c <= '\r'
    || c == ' '
    || c == '\U{0085}'
    || c == '\U{00A0}'
    || c == '\U{1680}'
    || '\U{2000}' <= c <= '\U{200A}'
    || c == '\U{2028}'
    || c == '\U{2029}'
    || c == '\U{202F}'
    || c == '\U{205F}'
    || c == '\U{3000}'
  }

  predicate AllWs(s: string) {
    forall i :: 0 <= i < |s| ==> IsWs(s[i])
  }

  /** A string with no whitespace at either end. */
  predicate Trimmed(s: string) {
    s == [] || (!IsWs(s[0]) && !IsWs(s[|s| - 1]))
  }

  /** `str::trim`: strips whitespace from both ends, keeping inner whitespace.
      Stated as peeling one whitespace character at a time from either end; the
      lemmas below show this is exactly "the text between the leading and the
      trailing whitespace runs". */
  function Trim(s: string): string
    decreases |s|
  {
    if s != [] && IsWs(s[0]) then Trim(s[1..])
    else if s != [] && IsWs(s[|s| - 1]) then Trim(s[..|s| - 1])
    else s
  }

  /** What `trim` leaves has no whitespace at either end, and it is what sits
      between two whitespace runs of the input. */
  lemma {:induction false} TrimSplits(s: string) returns (pre: string, post: string)
    ensures Trimmed(Trim(s))
    ensures s == pre + Trim(s) + post && AllWs(pre) && AllWs(post)
    decreases |s|
  {
    if s != [] && IsWs(s[0]) {
      var p, q := TrimSplits(s[1..]);
      var t := Trim(s[1..]);
      assert Trim(s) == t;
      pre, post := [s[0]] + p, q;
      AllWsConcat([s[0]], p);
      assert s == [s[0]] + s[1..];
      ConcatAssoc([s[0]], p + t, q);
      ConcatAssoc([s[0]], p, t);
    } else if s != [] && IsWs(s[|s| - 1]) {
      var p, q := TrimSplits(s[..|s| - 1]);
      var t := Trim(s[..|s| - 1]);
      assert Trim(s) == t;
      pre, post := p, q + [s[|s| - 1]];
      AllWsConcat(q, [s[|s| - 1]]);
      assert s == s[..|s| - 1] + [s[|s| - 1]];
      ConcatAssoc(p + t, q, [s[|s| - 1]]);
    } else {
      pre, post := [], [];
      assert s == [] + s + [];
    }
  }

  lemma AllWsConcat(a: string, b: string)
    requires AllWs(a) && AllWs(b)
    ensures AllWs(a + b)
  {
    assert forall i :: |a| <= i < |a + b| ==> (a + b)[i] == b[i - |a|];
  }

  lemma ConcatAssoc(a: string, b: string, c: string)
    ensures (a + b) + c == a + (b + c)
  {
  }

  lemma {:induction false} TrimIsTrimmed(s: string)
    ensures Trimmed(Trim(s))
  {
    var _, _ := TrimSplits(s);
  }

  /** Trimming leaves a trimmed string alone. */
  lemma TrimOfTrimmed(s: string)
    requires Trimmed(s)
    ensures Trim(s) == s
  {
  }

  /** Trimming is idempotent, so every key the aggregator builds is its own trim. */
  lemma {:induction false} TrimIdempotent(s: string)
    ensures Trim(Trim(s)) == Trim(s)
  {
    TrimIsTrimmed(s);
    TrimOfTrimmed(Trim(s));
  }

  /** The reference reading of `trim`: whatever trimmed text sits between two
      runs of whitespace is what `Trim` returns. */
  lemma {:induction false} TrimCharacterization(pre: string, r: string, post: string)
    requires AllWs(pre) && AllWs(post) && Trimmed(r)
    ensures Trim(pre + r + post) == r
    decreases |pre| + |post|
  {
    var s := pre + r + post;
    if pre != [] {
      assert s[0] == pre[0];
      assert s[1..] == pre[1..] + r + post;
      TrimCharacterization(pre[1..], r, post);
    } else if post != [] {
      assert s == r + post;
      if r == [] {
        assert s[0] == post[0];
        assert s[1..] == [] + [] + post[1..];
        TrimCharacterization([], [], post[1..]);
      } else {
        assert s[0] == r[0];
        assert s[|s| - 1] == post[|post| - 1];
        assert s[..|s| - 1] == [] + r + post[..|post| - 1];
        TrimCharacterization([], r, post[..|post| - 1]);
      }
    } else {
      assert s == r;
    }
  }

  // ---------------------------------------------------------------- split and join

  /** Position of the first `sep` in `s`, if any. */
  function IndexOf(s: string, sep: char): (r: Found)
    ensures r.At? ==> r.i < |s| && s[r.i] == sep && sep !in s[..r.i]
    ensures r.Absent? ==> sep !in s
  {
    if s == [] then Absent
    else if s[0] == sep then At(0)
    else Shift(IndexOf(s[1..], sep), 1)
  }

  datatype Found = Absent | At(i: nat)

  function Shift(f: Found, n: nat): Found {
    match f
    case Absent => Absent
    case At(j) => At(j + n)
  }

  /** `str::split(sep)` for a single-`char` pattern: the maximal `sep`-free pieces,
      always at least one (an empty string splits into one empty piece). */
  function Split(s: string, sep: char): (parts: seq<string>)
    ensures |parts| >= 1
    ensures forall k :: 0 <= k < |parts| ==> sep !in parts[k]
    decreases |s|
  {
    match IndexOf(s, sep)
    case Absent => [s]
    case At(i) => [s[..i]] + Split(s[i + 1..], sep)
  }

  /** `[String]::join(sep)`: the pieces with `sep` between neighbours. */
  function Join(parts: seq<string>, sep: string): (s: string)
    ensures parts == [] ==> s == []
    ensures |parts| == 1 ==> s == parts[0]
  {
    if parts == [] then []
    else if |parts| == 1 then parts[0]
    else parts[0] + sep + Join(parts[1..], sep)
  }

  /** Splitting and re-joining with the same separator gives back the string. */
  lemma {:induction false} JoinSplit(s: string, sep: char)
    ensures Join(Split(s, sep), [sep]) == s
    decreases |s|
  {
    match IndexOf(s, sep)
    case Absent =>
      assert Split(s, sep) == [s];
    case At(i) =>
      var rest := Split(s[i + 1..], sep);
      assert Split(s, sep) == [s[..i]] + rest;
      JoinSplit(s[i + 1..], sep);
      assert ([s[..i]] + rest)[1..] == rest;
      assert Join([s[..i]] + rest, [sep]) == s[..i] + [sep] + Join(rest, [sep]);
      assert s == s[..i] + [sep] + s[i + 1..];
  }

  /** Joining `sep`-free pieces and splitting again gives back the pieces. */
  lemma {:induction false} SplitJoin(parts: seq<string>, sep: char)
    requires |parts| >= 1
    requires forall k :: 0 <= k < |parts| ==> sep !in parts[k]
    ensures Split(Join(parts, [sep]), sep) == parts
    decreases |parts|
  {
    if |parts| > 1 {
      SplitStep(parts[0], sep, Join(parts[1..], [sep]));
      SplitJoin(parts[1..], sep);
    } else {
      SplitFree(parts[0], sep);
    }
  }

  /** Splitting `a`, a separator and `b` gives the pieces of `a` followed by
      the pieces of `b`: the separator only ever ends a piece. */
  lemma {:induction false} SplitConcat(a: string, sep: char, b: string)
    ensures Split(a + [sep] + b, sep) == Split(a, sep) + Split(b, sep)
    decreases |a|
  {
    if sep !in a {
      SplitFree(a, sep);
      SplitStep(a, sep, b);
    } else {
      var i := FirstSep(a, sep);
      var x, y := a[..i], a[i + 1..];
      Regroup(a, i, sep, b);
      SplitStep(x, sep, y + [sep] + b);
      SplitStep(x, sep, y);
      SplitConcat(y, sep, b);
      PiecesAssoc([x], Split(y, sep), Split(b, sep));
    }
  }

  /** Where the first `sep` of `a` sits. */
  lemma FirstSep(a: string, sep: char) returns (i: nat)
    requires sep in a
    ensures i < |a| && a[i] == sep && sep !in a[..i]
  {
    i := IndexOf(a, sep).i;
  }

  lemma Regroup(a: string, i: nat, sep: char, b: string)
    requires i < |a| && a[i] == sep
    ensures a == a[..i] + [sep] + a[i + 1..]
    ensures a + [sep] + b == a[..i] + [sep] + (a[i + 1..] + [sep] + b)
  {
    assert a == a[..i] + [sep] + a[i + 1..];
  }

  lemma PiecesAssoc(a: seq<string>, b: seq<string>, c: seq<string>)
    ensures (a + b) + c == a + (b + c)
  {
  }

  /** A `sep`-free string is a single piece. */
  lemma SplitFree(a: string, sep: char)
    requires sep !in a
    ensures Split(a, sep) == [a]
  {
  }

  /** A `sep`-free piece followed by `sep` splits off as the first piece. */
  lemma SplitStep(a: string, sep: char, b: string)
    requires sep !in a
    ensures Split(a + [sep] + b, sep) == [a] + Split(b, sep)
  {
    var s := a + [sep] + b;
    IndexOfAfterFree(a, [sep] + b, sep);
    assert s == a + ([sep] + b);
    assert IndexOf(s, sep) == At(|a|);
    assert s[..|a|] == a;
    assert s[|a| + 1..] == b;
  }

  /** In `a + b` with `a` free of `sep`, the first `sep` is the first one of `b`, shifted. */
  lemma {:induction false} IndexOfAfterFree(a: string, b: string, sep: char)
    requires sep !in a
    ensures IndexOf(a + b, sep) == Shift(IndexOf(b, sep), |a|)
    decreases |a|
  {
    if a == [] {
      assert a + b == b;
    } else {
      assert (a + b)[0] == a[0] != sep;
      assert (a + b)[1..] == a[1..] + b;
      IndexOfAfterFree(a[1..], b, sep);
      assert IndexOf(a + b, sep) == Shift(IndexOf(a[1..] + b, sep), 1);
    }
  }
}
