/** Small value helpers shared by every module: an optional value and the
    list comprehensions (filter, map, take) the Python code writes inline. */
module Common {

  datatype Option<T> = None | Some(value: T) {
    /** Python's `x or default` on a value that may be missing. */
    function GetOr(default: T): T {
      match this
      case Some(v) => v
      case None => default
    }
  }

  function Last<T>(s: seq<T>): T
    requires s != []
  {
    s[|s| - 1]
  }

  lemma TailConcat<T>(a: seq<T>, b: seq<T>)
    requires a != []
    ensures (a + b)[0] == a[0] && (a + b)[1..] == a[1..] + b
  {
  }

  /** `[x for x in s if p(x)]`, defined on the prefix so that a loop over `s` can follow it. */
  function Filter<T>(s: seq<T>, p: T -> bool): (r: seq<T>)
    ensures |r| <= |s|
    ensures forall x :: x in r ==> x in s && p(x)
  {
    if s == [] then [] else
      Filter(s[..|s| - 1], p) + (if p(Last(s)) then [Last(s)] else [])
  }

  lemma {:induction false} FilterComplete<T>(s: seq<T>, p: T -> bool, x: T)
    requires x in s && p(x)
    ensures x in Filter(s, p)
  {
    var init := s[..|s| - 1];
    if x in init {
      FilterComplete(init, p, x);
    } else {
      assert s == init + [Last(s)];
    }
  }

  lemma {:induction false} FilterAppend<T>(a: seq<T>, b: seq<T>, p: T -> bool)
    ensures Filter(a + b, p) == Filter(a, p) + Filter(b, p)
    decreases |b|
  {
    if b == [] {
      assert a + b == a;
    } else {
      var bInit := b[..|b| - 1];
      assert (a + b)[..|a + b| - 1] == a + bInit;
      var tail := if p(Last(b)) then [Last(b)] else [];
      calc {
        Filter(a + b, p);
        Filter(a + bInit, p) + tail;
      == { FilterAppend(a, bInit, p); }
        Filter(a, p) + Filter(bInit, p) + tail;
        Filter(a, p) + Filter(b, p);
      }
    }
  }

  /** `[f(x) for x in s]`. */
  function MapSeq<T, U>(s: seq<T>, f: T -> U): (r: seq<U>)
    ensures |r| == |s|
    ensures forall i :: 0 <= i < |s| ==> r[i] == f(s[i])
  {
    if s == [] then [] else MapSeq(s[..|s| - 1], f) + [f(Last(s))]
  }

  /** `s[:n]`. */
  function Take<T>(s: seq<T>, n: nat): (r: seq<T>)
    ensures |r| == if |s| < n then |s| else n
    ensures r == s[..|r|]
  {
    if |s| <= n then s else s[..n]
  }

  function Min(a: int, b: int): int {
    if a <= b then a else b
  }
}
