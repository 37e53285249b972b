/**
 * The few pieces of Python's built-in and standard-library behaviour that the
 * core leans on, written out: `str.startswith`/`str.endswith`, building a
 * `dict` from key/value pairs, `b''.join`, `str(int)`, and the POSIX
 * `os.path.basename`, `os.path.dirname` and `os.path.join`.
 */
module PyLib {

  /** A byte of a Python `bytes` object. */
  type byte = b: int | 0 <= b < 256

  predicate StartsWith<T(==)>(s: seq<T>, prefix: seq<T>) {
    |prefix| <= |s| && s[..|prefix|] == prefix
  }

  predicate EndsWith<T(==)>(s: seq<T>, suffix: seq<T>) {
    |suffix| <= |s| && s[|s| - |suffix|..] == suffix
  }

  /** `s.startswith(prefixes)` with a tuple of prefixes. */
  predicate StartsWithAny<T(==)>(s: seq<T>, prefixes: seq<seq<T>>) {
    exists i :: 0 <= i < |prefixes| && StartsWith(s, prefixes[i])
  }

  /** `s.endswith(suffixes)` with a tuple of suffixes. */
  predicate EndsWithAny<T(==)>(s: seq<T>, suffixes: seq<seq<T>>) {
    exists i :: 0 <= i < |suffixes| && EndsWith(s, suffixes[i])
  }

  /** Two prefixes of one string: the shorter is a prefix of the longer. */
  lemma StartsWithBoth<T>(s: seq<T>, a: seq<T>, b: seq<T>)
    requires StartsWith(s, a) && StartsWith(s, b) && |a| <= |b|
    ensures StartsWith(b, a)
  {
    assert b[..|a|] == s[..|a|];
  }

  /** Two suffixes of one string: the shorter is a suffix of the longer. */
  lemma EndsWithBoth<T>(s: seq<T>, a: seq<T>, b: seq<T>)
    requires EndsWith(s, a) && EndsWith(s, b) && |a| <= |b|
    ensures EndsWith(b, a)
  {
    assert b[|b| - |a|..] == s[|s| - |a|..];
  }

  /** A string holding two suffixes of equal length holds one suffix twice. */
  lemma EndsWithSameLength<T>(s: seq<T>, a: seq<T>, b: seq<T>)
    requires EndsWith(s, a) && EndsWith(s, b) && |a| == |b|
    ensures a == b
  {
  }

  /** `b''.join(chunks)`. */
  function Concat<T>(chunks: seq<seq<T>>): seq<T> {
    if chunks == [] then [] else Concat(chunks[..|chunks| - 1]) + chunks[|chunks| - 1]
  }

  lemma ConcatAppend<T>(chunks: seq<seq<T>>, x: seq<T>)
    ensures Concat(chunks + [x]) == Concat(chunks) + x
  {
    assert (chunks + [x])[..|chunks|] == chunks;
  }

  /** Joining a leading chunk and the rest. */
  lemma {:induction false} ConcatPrepend<T>(x: seq<T>, chunks: seq<seq<T>>)
    ensures Concat([x] + chunks) == x + Concat(chunks)
  {
    if chunks == [] {
      assert [x] + chunks == [] + [x];
      ConcatAppend([], x);
    } else {
      var n := |chunks| - 1;
      assert [x] + chunks == ([x] + chunks[..n]) + [chunks[n]];
      ConcatAppend([x] + chunks[..n], chunks[n]);
      ConcatPrepend(x, chunks[..n]);
      assert chunks == chunks[..n] + [chunks[n]];
      ConcatAppend(chunks[..n], chunks[n]);
    }
  }

  /**
   * `dict(pairs)`, and equally a dict comprehension over `pairs`: keys are
   * inserted left to right, so a key that occurs twice keeps its LAST value.
   */
  function DictOf<K(==), V>(pairs: seq<(K, V)>): (d: map<K, V>)
    ensures forall i :: 0 <= i < |pairs| ==> pairs[i].0 in d
    ensures forall k :: k in d ==> exists i :: 0 <= i < |pairs| && pairs[i].0 == k
    ensures forall i :: 0 <= i < |pairs| && IsLastKey(pairs, i) ==> d[pairs[i].0] == pairs[i].1
  {
    if pairs == [] then map[]
    else
      var front := pairs[..|pairs| - 1];
      var last := pairs[|pairs| - 1];
      assert pairs == front + [last];
      var rest := DictOf(front);
      DictOfStep(front, last, rest);
      rest[last.0 := last.1]
  }

  /** What `DictOf` promises about `d` for `pairs`. */
  ghost predicate IsDictOf<K, V>(pairs: seq<(K, V)>, d: map<K, V>) {
    && (forall i :: 0 <= i < |pairs| ==> pairs[i].0 in d)
    && (forall k :: k in d ==> exists i :: 0 <= i < |pairs| && pairs[i].0 == k)
    && (forall i :: 0 <= i < |pairs| && IsLastKey(pairs, i) ==> d[pairs[i].0] == pairs[i].1)
  }

  /** Inserting one more pair keeps the promise. */
  lemma DictOfStep<K, V>(front: seq<(K, V)>, last: (K, V), rest: map<K, V>)
    requires IsDictOf(front, rest)
    ensures IsDictOf(front + [last], rest[last.0 := last.1])
  {
    var pairs, d := front + [last], rest[last.0 := last.1];
    forall i | 0 <= i < |pairs| && IsLastKey(pairs, i)
      ensures d[pairs[i].0] == pairs[i].1
    {
      if i < |front| {
        assert pairs[i] == front[i];
        assert pairs[|front|].0 != pairs[i].0;
        assert IsLastKey(front, i) by {
          forall j | i < j < |front|
            ensures front[j].0 != front[i].0
          {
            assert pairs[j] == front[j];
          }
        }
      }
    }
    forall k | k in d
      ensures exists i :: 0 <= i < |pairs| && pairs[i].0 == k
    {
      if k != last.0 {
        var i :| 0 <= i < |front| && front[i].0 == k;
        assert pairs[i] == front[i];
      } else {
        assert pairs[|front|].0 == k;
      }
    }
    forall i | 0 <= i < |pairs|
      ensures pairs[i].0 in d
    {
      if i < |front| {
        assert pairs[i] == front[i];
      }
    }
  }

  /** Every key of `dict(pairs)` holds the value of the last pair with that key. */
  lemma {:induction false} DictOfLast<K, V>(pairs: seq<(K, V)>, k: K)
    requires k in DictOf(pairs)
    ensures exists i :: 0 <= i < |pairs| && pairs[i].0 == k && IsLastKey(pairs, i) && DictOf(pairs)[k] == pairs[i].1
  {
    var n := |pairs| - 1;
    var front := pairs[..n];
    assert DictOf(pairs) == DictOf(front)[pairs[n].0 := pairs[n].1];
    if pairs[n].0 == k {
      assert IsLastKey(pairs, n);
    } else {
      assert k in DictOf(front);
      DictOfLast(front, k);
      var i :| 0 <= i < |front| && front[i].0 == k && IsLastKey(front, i) && DictOf(front)[k] == front[i].1;
      forall j | i < j < |pairs|
        ensures pairs[j].0 != pairs[i].0
      {
        assert pairs[i] == front[i];
        if j < n {
          assert pairs[j] == front[j];
          assert front[j].0 != front[i].0;
        } else {
          assert j == n;
        }
      }
    }
  }

  /** No pair after position `i` has the key of pair `i`. */
  predicate IsLastKey<K(==), V>(pairs: seq<(K, V)>, i: int)
    requires 0 <= i < |pairs|
  {
    forall j :: i < j < |pairs| ==> pairs[j].0 != pairs[i].0
  }

  /** `s.rfind(c)`: the last index holding `c`, or -1. */
  function RFind(s: string, c: char): (r: int)
    ensures -1 <= r < |s|
    ensures r >= 0 ==> s[r] == c
    ensures forall j :: r < j < |s| ==> s[j] != c
  {
    if s == [] then -1
    else if s[|s| - 1] == c then |s| - 1
    else RFind(s[..|s| - 1], c)
  }

  /** `posixpath.basename(p)`: everything after the last `/`. */
  function Basename(p: string): (r: string)
    ensures '/' !in r
    ensures EndsWith(p, r)
  {
    p[RFind(p, '/') + 1..]
  }

  /** The string without its trailing `/` characters (`str.rstrip('/')`). */
  function RStripSlashes(s: string): string {
    if s != [] && s[|s| - 1] == '/' then RStripSlashes(s[..|s| - 1]) else s
  }

  /**
   * `posixpath.dirname(p)`: everything up to the last `/`, without trailing
   * slashes unless it consists of slashes only.
   */
  function Dirname(p: string): string {
    var head := p[..RFind(p, '/') + 1];
    if head != [] && (exists i :: 0 <= i < |head| && head[i] != '/') then RStripSlashes(head) else head
  }

  /** `posixpath.join(a, b)`. */
  function Join(a: string, b: string): string {
    if StartsWith(b, "/") then b
    else if a == [] || EndsWith(a, "/") then a + b
    else a + "/" + b
  }

  /** `str(n)` for a non-negative integer, most significant digit first. */
  function Digits(n: nat): (r: string)
    ensures |r| > 0 && (|r| > 1 ==> r[0] != '0')
    ensures forall i :: 0 <= i < |r| ==> '0' <= r[i] <= '9'
    ensures DecimalValue(r) == n
  {
    var d := ('0' as int + n % 10) as char;
    if n < 10 then [d]
    else
      var front := Digits(n / 10);
      assert (front + [d])[..|front|] == front;
      front + [d]
  }

  /** The number a string of decimal digits denotes. */
  function DecimalValue(s: string): int {
    if s == [] then 0 else 10 * DecimalValue(s[..|s| - 1]) + (s[|s| - 1] as int - '0' as int)
  }

  /** `str(n)` for any integer. */
  function IntToDecimal(n: int): (r: string)
    ensures |r| > 0
    ensures n >= 0 ==> r == Digits(n)
    ensures n < 0 ==> r[0] == '-' && r[1..] == Digits(-n)
  {
    if n >= 0 then Digits(n) else "-" + Digits(-n)
  }
}
