/** Two list helpers: the endless round-robin over a sequence, and the reading
    of a list file (one entry per line, blank and comment lines skipped). */
module Utils {
  import opened Common
  import opened Text

  // ---------------------------------------------------------------------------
  // The round-robin
  // ---------------------------------------------------------------------------

  /** The element found at step `n` of walking `s` over and over: once past
      the last element the walk starts again at the first. */
  function RoundAt<T>(s: seq<T>, n: nat): T
    requires s != []
    decreases n
  {
    if n < |s| then s[n] else RoundAt(s, n - |s|)
  }

  /** What the round-robin over `s` yields at step `n` (counting from 0):
      nothing, at every step, when `s` is empty. */
  function CycleAt<T>(s: seq<T>, n: nat): Option<T> {
    if s == [] then None else Some(RoundAt(s, n))
  }

  lemma MulMono(a: int, b: int, k: int)
    requires a >= b && k > 0
    ensures a * k >= b * k
  {
  }

  /** Euclidean division leaves one quotient and one remainder. */
  lemma ModUnique(n: int, k: int, q: int, r: int)
    requires k > 0 && 0 <= r < k && n == q * k + r
    ensures n % k == r
  {
    var q2, r2 := n / k, n % k;
    assert n == q2 * k + r2;
    if q2 > q {
      MulMono(q2, q + 1, k);
      assert false;
    } else if q2 < q {
      MulMono(q, q2 + 1, k);
      assert false;
    }
  }

  lemma {:induction false} RoundAtMod<T>(s: seq<T>, n: nat)
    requires s != []
    ensures RoundAt(s, n) == s[n % |s|]
    decreases n
  {
    if n >= |s| {
      var m := n - |s|;
      RoundAtMod(s, m);
      assert m == (m / |s|) * |s| + m % |s|;
      ModUnique(n, |s|, m / |s| + 1, m % |s|);
    } else {
      ModUnique(n, |s|, 0, n);
    }
  }

  /** Step `n` of the round-robin: None for the empty sequence, else the
      element at `n` modulo the length; the round-robin repeats with period
      `|s|`. */
  lemma CycleAtIndex<T>(s: seq<T>, n: nat)
    ensures s == [] ==> CycleAt(s, n) == None
    ensures s != [] ==> CycleAt(s, n) == Some(s[n % |s|])
    ensures CycleAt(s, n + |s|) == CycleAt(s, n)
  {
    if s != [] {
      RoundAtMod(s, n);
    }
  }

  /** The generator: the sequence and the position of the next element in
      it. The step count exists only to state what each step yields. */
  class Cycler<T> {
    const items: seq<T>
    var pos: nat
    ghost var steps: nat

    ghost predicate Valid()
      reads this
    {
      items == [] || pos == steps % |items|
    }

    constructor(items: seq<T>)
      ensures this.items == items && steps == 0 && Valid()
    {
      this.items := items;
      pos := 0;
      steps := 0;
    }

    /** One step of the generator: the value for the current step, then on
        to the next position, back to the first after the last. */
    method Next() returns (r: Option<T>)
      requires Valid()
      modifies this
      ensures Valid()
      ensures r == CycleAt(items, old(steps))
      ensures steps == old(steps) + 1
    {
      if items == [] {
        r := None;
      } else {
        RoundAtMod(items, steps);
        r := Some(items[pos]);
        var k, q := |items|, steps / |items|;
        assert steps == q * k + pos;
        if pos + 1 == k {
          pos := 0;
          ModUnique(steps + 1, k, q + 1, 0);
        } else {
          pos := pos + 1;
          ModUnique(steps + 1, k, q, pos);
        }
      }
      steps := steps + 1;
    }
  }

  // ---------------------------------------------------------------------------
  // List files
  // ---------------------------------------------------------------------------

  /** A line is kept when something is left after stripping it and the line
      itself, unstripped, does not begin with "#". */
  predicate KeepLine(line: string) {
    Strip(line) != [] && !(line != [] && line[0] == '#')
  }

  /** What one line contributes. */
  function ListLine(line: string): seq<string> {
    if KeepLine(line) then [Strip(line)] else []
  }

  /** The contributions of the lines, one after another. */
  function Gather(lines: seq<string>, f: string -> seq<string>): seq<string> {
    if lines == [] then [] else Gather(lines[..|lines| - 1], f) + f(Last(lines))
  }

  /** The kept lines, stripped, in file order. */
  function ListLines(lines: seq<string>): seq<string> {
    Gather(lines, ListLine)
  }

  /** A list file: absent, or present with its lines. */
  function LoadListFile(file: Option<seq<string>>): (r: seq<string>)
    ensures file.None? ==> r == []
  {
    match file
    case None => []
    case Some(lines) => ListLines(lines)
  }

  lemma {:induction false} GatherAppend(a: seq<string>, b: seq<string>, f: string -> seq<string>)
    ensures Gather(a + b, f) == Gather(a, f) + Gather(b, f)
    decreases |b|
  {
    if b == [] {
      assert a + b == a;
    } else {
      var bInit := b[..|b| - 1];
      assert (a + b)[..|a + b| - 1] == a + bInit;
      calc {
        Gather(a + b, f);
        Gather(a + bInit, f) + f(Last(b));
      == { GatherAppend(a, bInit, f); }
        Gather(a, f) + Gather(bInit, f) + f(Last(b));
        Gather(a, f) + Gather(b, f);
      }
    }
  }

  lemma ListLinesAppend(a: seq<string>, b: seq<string>)
    ensures ListLines(a + b) == ListLines(a) + ListLines(b)
  {
    GatherAppend(a, b, ListLine);
  }

  lemma ListLinesSingle(line: string)
    ensures ListLines([line]) == ListLine(line)
  {
    assert [line][..0] == [];
    assert Gather([line], ListLine) == Gather([], ListLine) + ListLine(line);
  }

  /** Each line contributes on its own, where it stands: its stripped text
      when kept, nothing otherwise. */
  lemma LineContribution(before: seq<string>, line: string, after: seq<string>)
    ensures ListLines(before + [line] + after) == ListLines(before) + ListLine(line) + ListLines(after)
  {
    ListLinesAppend(before + [line], after);
    ListLinesAppend(before, [line]);
    ListLinesSingle(line);
  }

  /** A line beginning with "#" is dropped. */
  lemma CommentDropped(before: seq<string>, line: string, after: seq<string>)
    requires line != [] && line[0] == '#'
    ensures ListLines(before + [line] + after) == ListLines(before) + ListLines(after)
  {
    LineContribution(before, line, after);
  }

  /** A comment indented by white space is kept, stripped, so that its entry
      begins with "#". */
  lemma IndentedCommentKept(before: seq<string>, line: string, after: seq<string>)
    requires line != [] && IsSpace(line[0]) && Strip(line) != [] && Strip(line)[0] == '#'
    ensures ListLines(before + [line] + after) == ListLines(before) + [Strip(line)] + ListLines(after)
  {
    LineContribution(before, line, after);
  }

  /** Every entry is stripped and non-empty, and the entries are exactly the
      stripped kept lines. */
  lemma {:induction false} ListLinesEntries(lines: seq<string>)
    ensures forall x :: x in ListLines(lines) ==> Trimmed(x)
    ensures forall x :: x in ListLines(lines) <==>
      (exists l :: l in lines && KeepLine(l) && Strip(l) == x)
  {
    if lines != [] {
      var init := lines[..|lines| - 1];
      ListLinesEntries(init);
      assert lines == init + [Last(lines)];
      assert ListLines(lines) == ListLines(init) + ListLine(Last(lines));
      EntriesSnoc(init, Last(lines), ListLines(init));
    }
  }

  /** The entries step: one more line after `init`. */
  lemma EntriesSnoc(init: seq<string>, line: string, a: seq<string>)
    requires forall x :: x in a ==> Trimmed(x)
    requires forall x :: x in a <==> (exists l :: l in init && KeepLine(l) && Strip(l) == x)
    ensures forall x :: x in a + ListLine(line) ==> Trimmed(x)
    ensures forall x :: x in a + ListLine(line) <==>
      (exists l :: l in init + [line] && KeepLine(l) && Strip(l) == x)
  {
    EntriesSnocTrimmed(line, a);
    EntriesSnocFrom(init, line, a);
    EntriesSnocTo(init, line, a);
  }

  lemma EntriesSnocTrimmed(line: string, a: seq<string>)
    requires forall x :: x in a ==> Trimmed(x)
    ensures forall x :: x in a + ListLine(line) ==> Trimmed(x)
  {
    StripTrimmed(line);
  }

  lemma EntriesSnocFrom(init: seq<string>, line: string, a: seq<string>)
    requires forall x :: x in a ==> (exists l :: l in init && KeepLine(l) && Strip(l) == x)
    ensures forall x :: x in a + ListLine(line) ==>
      (exists l :: l in init + [line] && KeepLine(l) && Strip(l) == x)
  {
    forall x | x in a + ListLine(line)
      ensures exists l :: l in init + [line] && KeepLine(l) && Strip(l) == x
    {
      if x in a {
        var l :| l in init && KeepLine(l) && Strip(l) == x;
        assert l in init + [line];
      } else {
        assert line in init + [line];
      }
    }
  }

  lemma EntriesSnocTo(init: seq<string>, line: string, a: seq<string>)
    requires forall x :: (exists l :: l in init && KeepLine(l) && Strip(l) == x) ==> x in a
    ensures forall x :: (exists l :: l in init + [line] && KeepLine(l) && Strip(l) == x) ==>
      x in a + ListLine(line)
  {
    forall x | exists l :: l in init + [line] && KeepLine(l) && Strip(l) == x
      ensures x in a + ListLine(line)
    {
      var l :| l in init + [line] && KeepLine(l) && Strip(l) == x;
      InSnoc(init, line, l);
      if l in init {
        assert x in a;
      }
    }
  }

  lemma InSnoc<T>(init: seq<T>, last: T, x: T)
    requires x in init + [last]
    ensures x in init || x == last
  {
  }
}
