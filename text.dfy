/** The parts of Python's `str` that the code relies on: white space, `strip`,
    `in` (substring containment), `split(sep)`, `split()`, `lower` and decimal
    rendering of integers. */
module Text {
  import opened Common

  /** Python's `str.isspace`: the characters that `strip()`, `split()` and the
      regular expression class `\s` treat as white space. */
  predicate IsSpace(c: char) {
    c == ' ' || c == '\t' || c == '\n' || c == '\r' || c == '\U{000B}' || c == '\U{000C}'
    || ('\U{001C}' <= c <= '\U{001F}') || c == '\U{0085}' || c == '\U{00A0}' || c == '\U{1680}'
    || ('\U{2000}' <= c <= '\U{200A}') || c == '\U{2028}' || c == '\U{2029}' || c == '\U{202F}'
    || c == '\U{205F}' || c == '\U{3000}'
  }

  predicate NoSpace(s: string) {
    forall i :: 0 <= i < |s| ==> !IsSpace(s[i])
  }

  predicate AllSpace(s: string) {
    forall i :: 0 <= i < |s| ==> IsSpace(s[i])
  }

  /** The non-white-space characters of `s`, in order. */
  function NonSpace(s: string): (r: string)
    ensures |r| <= |s|
  {
    if s == [] then [] else (if IsSpace(s[0]) then [] else [s[0]]) + NonSpace(s[1..])
  }

  lemma {:induction false} NonSpaceConcat(a: string, b: string)
    ensures NonSpace(a + b) == NonSpace(a) + NonSpace(b)
  {
    if a != [] {
      TailConcat(a, b);
      var head := if IsSpace(a[0]) then [] else [a[0]];
      calc {
        NonSpace(a + b);
        head + NonSpace(a[1..] + b);
      == { NonSpaceConcat(a[1..], b); }
        head + NonSpace(a[1..]) + NonSpace(b);
        NonSpace(a) + NonSpace(b);
      }
    } else {
      assert a + b == b;
    }
  }

  lemma {:induction false} NonSpaceEmpty(s: string)
    ensures NonSpace(s) == [] <==> AllSpace(s)
  {
    if s != [] {
      NonSpaceEmpty(s[1..]);
      assert forall i :: 1 <= i < |s| ==> s[i] == s[1..][i - 1];
    }
  }

  lemma NonSpaceOfSpaces(s: string)
    requires AllSpace(s)
    ensures NonSpace(s) == []
  {
    NonSpaceEmpty(s);
  }

  /** `lstrip()`. */
  function StripLeft(s: string): (r: string)
    ensures |r| <= |s| && r == s[|s| - |r|..]
    ensures r == [] || !IsSpace(r[0])
    ensures AllSpace(s[..|s| - |r|])
    ensures NonSpace(r) == NonSpace(s)
  {
    if s != [] && IsSpace(s[0]) then
      var r := StripLeft(s[1..]);
      StripLeftStep(s, r);
      r
    else s
  }

  /** One leading space removed: what holds of the stripped rest holds of
      the whole. */
  lemma StripLeftStep(s: string, r: string)
    requires s != [] && IsSpace(s[0])
    requires |r| <= |s| - 1 && r == s[1..][|s| - 1 - |r|..]
    requires AllSpace(s[1..][..|s| - 1 - |r|])
    requires NonSpace(r) == NonSpace(s[1..])
    ensures r == s[|s| - |r|..]
    ensures AllSpace(s[..|s| - |r|])
    ensures NonSpace(r) == NonSpace(s)
  {
    var c, rest := s[0], s[1..];
    SplitFirst(s);
    SuffixOfRest(c, rest, r);
    SpacesOfRest(c, rest, |rest| - |r|);
  }

  lemma SplitFirst(s: string)
    requires s != []
    ensures s == [s[0]] + s[1..]
  {
  }

  lemma SuffixOfRest(c: char, rest: string, r: string)
    requires |r| <= |rest| && r == rest[|rest| - |r|..]
    ensures r == ([c] + rest)[|rest| + 1 - |r|..]
  {
    var t := ([c] + rest)[|rest| + 1 - |r|..];
    forall i | 0 <= i < |r| ensures t[i] == r[i] {
      assert t[i] == rest[|rest| - |r| + i];
    }
  }

  lemma SpacesOfRest(c: char, rest: string, n: nat)
    requires n <= |rest| && IsSpace(c) && AllSpace(rest[..n])
    ensures AllSpace(([c] + rest)[..n + 1])
  {
    var t := ([c] + rest)[..n + 1];
    forall i | 0 <= i < |t| ensures IsSpace(t[i]) {
      if i > 0 {
        assert t[i] == rest[..n][i - 1];
      }
    }
  }

  /** `rstrip()`. */
  function StripRight(s: string): (r: string)
    ensures |r| <= |s| && r == s[..|r|]
    ensures r == [] || !IsSpace(r[|r| - 1])
    ensures AllSpace(s[|r|..])
    ensures r == [] ==> AllSpace(s)
    ensures NonSpace(r) == NonSpace(s)
  {
    if s != [] && IsSpace(s[|s| - 1]) then
      var r := StripRight(s[..|s| - 1]);
      StripRightStep(s, r);
      r
    else s
  }

  /** One trailing space removed: what holds of the stripped rest holds of
      the whole. */
  lemma StripRightStep(s: string, r: string)
    requires s != [] && IsSpace(s[|s| - 1])
    requires |r| <= |s| - 1 && r == s[..|s| - 1][..|r|]
    requires AllSpace(s[..|s| - 1][|r|..])
    requires NonSpace(r) == NonSpace(s[..|s| - 1])
    ensures r == s[..|r|]
    ensures AllSpace(s[|r|..])
    ensures NonSpace(r) == NonSpace(s)
  {
    var init, c := s[..|s| - 1], s[|s| - 1];
    SplitLast(s);
    PrefixOfInit(init, c, r);
    SpacesOfInit(init, c, |r|);
    NonSpaceSpaceLast(init, c);
  }

  lemma SplitLast(s: string)
    requires s != []
    ensures s == s[..|s| - 1] + [s[|s| - 1]]
  {
  }

  lemma PrefixOfInit(init: string, c: char, r: string)
    requires |r| <= |init| && r == init[..|r|]
    ensures r == (init + [c])[..|r|]
  {
    assert forall i :: 0 <= i < |r| ==> (init + [c])[i] == init[i];
  }

  lemma SpacesOfInit(init: string, c: char, n: nat)
    requires n <= |init| && IsSpace(c) && AllSpace(init[n..])
    ensures AllSpace((init + [c])[n..])
  {
    forall i | 0 <= i < |init| + 1 - n ensures IsSpace((init + [c])[n..][i]) {
      if n + i < |init| {
        assert (init + [c])[n..][i] == init[n..][i];
      }
    }
  }

  lemma NonSpaceSpaceLast(init: string, c: char)
    requires IsSpace(c)
    ensures NonSpace(init + [c]) == NonSpace(init)
  {
    NonSpaceConcat(init, [c]);
    assert NonSpace([c]) == [] by { assert [c][1..] == []; }
  }

  /** Non-empty, with no white space at either end: what `strip()` leaves of
      a text that is not all white space. */
  predicate Trimmed(c: string) {
    c != [] && !IsSpace(c[0]) && !IsSpace(c[|c| - 1])
  }

  /** `strip()`: the text with leading and trailing white space removed. */
  function Strip(s: string): (r: string)
    ensures |r| <= |s|
    ensures r == [] || (!IsSpace(r[0]) && !IsSpace(r[|r| - 1]))
    ensures NonSpace(r) == NonSpace(s)
    ensures r == [] <==> AllSpace(s)
  {
    var l := StripLeft(s);
    var r := StripRight(l);
    assert r != [] ==> r[0] == l[0];
    NonSpaceEmpty(s);
    NonSpaceEmpty(r);
    r
  }

  lemma StripTrimmed(s: string)
    ensures Strip(s) == [] || Trimmed(Strip(s))
  {
  }

  /** Stripping only removes characters. */
  lemma StripSubset(s: string)
    ensures forall c :: c in Strip(s) ==> c in s
  {
    var l := StripLeft(s);
    assert forall c :: c in l ==> c in s;
    assert forall c :: c in StripRight(l) ==> c in l;
  }

  lemma {:induction false} StripLeftAppend(a: string, b: string)
    requires !AllSpace(a)
    ensures StripLeft(a + b) == StripLeft(a) + b
  {
    assert a != [];
    if IsSpace(a[0]) {
      assert (a + b)[1..] == a[1..] + b;
      assert !AllSpace(a[1..]) by {
        var k :| 0 <= k < |a| && !IsSpace(a[k]);
        assert a[1..][k - 1] == a[k];
      }
      StripLeftAppend(a[1..], b);
    }
  }

  lemma {:induction false} StripRightAppendSpace(a: string, b: string)
    requires AllSpace(b)
    ensures StripRight(a + b) == StripRight(a)
    decreases |b|
  {
    if b == [] {
      assert a + b == a;
    } else {
      var bInit := b[..|b| - 1];
      assert (a + b)[..|a + b| - 1] == a + bInit;
      StripRightAppendSpace(a, bInit);
    }
  }

  /** Stripping a text that ends in ". " leaves a non-empty text ending in '.'. */
  lemma StripDotSpace(y: string)
    ensures Strip(y + ". ") != [] && Strip(y + ". ")[|Strip(y + ". ")| - 1] == '.'
  {
    DotSpace(y);
    var l := StripLeftDot(y + ".");
    StripLeftThenSpace(y + ". ", l);
  }

  lemma DotSpace(y: string)
    ensures y + ". " == y + "." + " "
  {
  }

  lemma StripLeftThenSpace(t: string, l: string)
    requires StripLeft(t) == l + " " && StripRight(l) == l
    ensures Strip(t) == l
  {
    calc {
      Strip(t);
      StripRight(l + " ");
    == { assert AllSpace(" "); StripRightAppendSpace(l, " "); }
      l;
    }
  }

  lemma StripLeftDot(yd: string) returns (l: string)
    requires yd != [] && yd[|yd| - 1] == '.'
    ensures l == StripLeft(yd) && l != [] && l[|l| - 1] == '.'
    ensures StripLeft(yd + " ") == l + " "
    ensures StripRight(l) == l
  {
    assert !AllSpace(yd) by { assert !IsSpace(yd[|yd| - 1]); }
    StripLeftAppend(yd, " ");
    l := StripLeft(yd);
    StripLeftNonEmpty(yd);
    SuffixLast(yd, l);
    StripRightKeeps(l);
  }

  lemma StripLeftNonEmpty(s: string)
    requires !AllSpace(s)
    ensures StripLeft(s) != []
  {
    assert s[..|s|] == s;
  }

  lemma SuffixLast(s: string, t: string)
    requires t != [] && |t| <= |s| && t == s[|s| - |t|..]
    ensures t[|t| - 1] == s[|s| - 1]
  {
  }

  lemma StripRightKeeps(s: string)
    requires s != [] && !IsSpace(s[|s| - 1])
    ensures StripRight(s) == s
  {
  }

  /** `sub in s` for text. */
  predicate OccursAt(s: string, sub: string, i: int) {
    0 <= i && i + |sub| <= |s| && s[i..i + |sub|] == sub
  }

  predicate Contains(s: string, sub: string) {
    exists i :: 0 <= i <= |s| && OccursAt(s, sub, i)
  }

  lemma ContainsAt(s: string, sub: string, i: int)
    requires OccursAt(s, sub, i)
    ensures Contains(s, sub)
  {
  }

  /** A text that lacks one of the characters of `sub` does not contain `sub`. */
  lemma MissingChar(s: string, sub: string, c: char)
    requires c in sub && c !in s
    ensures !Contains(s, sub)
  {
    forall i | 0 <= i <= |s| ensures !OccursAt(s, sub, i) {
      if i + |sub| <= |s| {
        var k :| 0 <= k < |sub| && sub[k] == c;
        assert s[i..i + |sub|][k] == s[i + k];
      }
    }
  }

  /** Containment is transitive: if `s` contains `mid` and `mid` contains `sub`, `s` contains `sub`. */
  lemma ContainsTrans(s: string, mid: string, sub: string)
    requires Contains(s, mid) && Contains(mid, sub)
    ensures Contains(s, sub)
  {
    var i :| 0 <= i <= |s| && OccursAt(s, mid, i);
    var j :| 0 <= j <= |mid| && OccursAt(mid, sub, j);
    forall k | 0 <= k < |sub| ensures s[i + j + k] == sub[k] {
      assert mid[j..j + |sub|][k] == mid[j + k];
      assert s[i..i + |mid|][j + k] == s[i + j + k];
    }
    assert s[i + j..i + j + |sub|] == sub;
    assert OccursAt(s, sub, i + j);
  }

  lemma ContainsMiddle(a: string, b: string, c: string)
    ensures Contains(a + b + c, b)
  {
    assert (a + b + c)[|a|..|a| + |b|] == b;
    assert OccursAt(a + b + c, b, |a|);
  }

  /** Text added before or after keeps what was contained. */
  lemma ContainsExtend(a: string, b: string, sub: string)
    requires Contains(a, sub)
    ensures Contains(a + b, sub) && Contains(b + a, sub)
  {
    var i :| 0 <= i <= |a| && OccursAt(a, sub, i);
    assert (a + b)[i..i + |sub|] == a[i..i + |sub|];
    assert OccursAt(a + b, sub, i);
    assert (b + a)[|b| + i..|b| + i + |sub|] == a[i..i + |sub|];
    assert OccursAt(b + a, sub, |b| + i);
  }

  lemma EmptyContainsOnlyEmpty(sub: string)
    requires sub != []
    ensures !Contains("", sub)
  {
  }

  /** The first occurrence of `sub` in `s` at or after `from` (`str.find`). */
  function FindFrom(s: string, sub: string, from: nat): (r: Option<nat>)
    decreases |s| - from
    ensures r.Some? ==> from <= r.value && OccursAt(s, sub, r.value)
    ensures r.Some? ==> forall j :: from <= j < r.value ==> !OccursAt(s, sub, j)
    ensures r.None? ==> forall j :: from <= j ==> !OccursAt(s, sub, j)
  {
    if from + |sub| > |s| then None
    else if OccursAt(s, sub, from) then Some(from)
    else FindFrom(s, sub, from + 1)
  }

  lemma FindContains(s: string, sub: string)
    ensures FindFrom(s, sub, 0).Some? <==> Contains(s, sub)
  {
  }

  /** `s.split(sep)` for a non-empty separator: the pieces between the
      leftmost non-overlapping occurrences of `sep`. */
  function SplitOn(s: string, sep: string): (parts: seq<string>)
    requires sep != []
    ensures |parts| >= 1
    decreases |s|
  {
    match FindFrom(s, sep, 0)
    case None => [s]
    case Some(k) => [s[..k]] + SplitOn(s[k + |sep|..], sep)
  }

  /** `sep.join(parts)`. */
  function Join(parts: seq<string>, sep: string): string
    decreases |parts|
  {
    if |parts| == 0 then ""
    else if |parts| == 1 then parts[0]
    else parts[0] + sep + Join(parts[1..], sep)
  }

  lemma JoinCons(x: string, tail: seq<string>, sep: string)
    requires tail != []
    ensures Join([x] + tail, sep) == x + sep + Join(tail, sep)
  {
    assert ([x] + tail)[1..] == tail;
  }

  /** Splitting and joining again gives the text back. */
  lemma {:induction false} SplitJoin(s: string, sep: string)
    requires sep != []
    ensures Join(SplitOn(s, sep), sep) == s
    decreases |s|
  {
    var f := FindFrom(s, sep, 0);
    if f.Some? {
      var k := f.value;
      var rest := s[k + |sep|..];
      SplitJoin(rest, sep);
      var tail := SplitOn(rest, sep);
      assert SplitOn(s, sep) == [s[..k]] + tail;
      JoinAround(s, sep, k, tail);
    } else {
      assert SplitOn(s, sep) == [s];
    }
  }

  lemma JoinAround(s: string, sep: string, k: nat, tail: seq<string>)
    requires OccursAt(s, sep, k) && tail != [] && Join(tail, sep) == s[k + |sep|..]
    ensures Join([s[..k]] + tail, sep) == s
  {
    var a, b := s[..k], s[k + |sep|..];
    calc {
      Join([a] + tail, sep);
    == { JoinCons(a, tail, sep); }
      a + sep + b;
    == { assert s[k..] == s[k..k + |sep|] + b; }
      a + s[k..];
    == 
      s;
    }
  }

  /** A text that contains the separator splits into at least two pieces, and
      the first is the text before the first occurrence. */
  lemma SplitAtLeastTwo(s: string, sep: string)
    requires sep != [] && Contains(s, sep)
    ensures |SplitOn(s, sep)| >= 2
    ensures SplitOn(s, sep)[0] == s[..FindFrom(s, sep, 0).value]
  {
    FindContains(s, sep);
  }

  /** A text without the separator is its own single piece. */
  lemma SplitNoSep(s: string, sep: string)
    requires sep != [] && !Contains(s, sep)
    ensures SplitOn(s, sep) == [s]
  {
    FindContains(s, sep);
  }

  /** No piece of a split contains the separator. */
  lemma {:induction false} SplitPiecesFree(s: string, sep: string)
    requires sep != []
    ensures forall p :: p in SplitOn(s, sep) ==> !Contains(p, sep)
    decreases |s|
  {
    match FindFrom(s, sep, 0)
    case None =>
      assert SplitOn(s, sep) == [s];
    case Some(k) =>
      var rest := s[k + |sep|..];
      SplitPiecesFree(rest, sep);
      assert SplitOn(s, sep) == [s[..k]] + SplitOn(rest, sep);
      forall j | 0 <= j <= k ensures !OccursAt(s[..k], sep, j) {
        if OccursAt(s[..k], sep, j) {
          assert s[..k][j..j + |sep|] == s[j..j + |sep|];
          assert OccursAt(s, sep, j);
        }
      }
  }

  /** A one-character separator occurs exactly where the character does. */
  lemma ContainsChar(s: string, c: char)
    ensures Contains(s, [c]) <==> c in s
  {
    if c in s {
      var i :| 0 <= i < |s| && s[i] == c;
      assert s[i..i + 1] == [c];
      assert OccursAt(s, [c], i);
    }
    if Contains(s, [c]) {
      var i :| 0 <= i <= |s| && OccursAt(s, [c], i);
      assert s[i] == s[i..i + 1][0];
    }
  }

  lemma NonSpaceJoin3(x: string, sep: string, y: string)
    ensures NonSpace(x + sep + y) == NonSpace(x) + NonSpace(sep) + NonSpace(y)
  {
    NonSpaceConcat(x + sep, y);
    NonSpaceConcat(x, sep);
  }

  /** Joining pieces that agree up to white space gives texts that agree up to
      white space. */
  lemma {:induction false} NonSpaceJoin(p: seq<string>, q: seq<string>, sep: string)
    requires |p| == |q|
    requires forall i :: 0 <= i < |p| ==> NonSpace(p[i]) == NonSpace(q[i])
    ensures NonSpace(Join(p, sep)) == NonSpace(Join(q, sep))
    decreases |p|
  {
    if |p| > 1 {
      var jp, jq := Join(p[1..], sep), Join(q[1..], sep);
      NonSpaceJoin(p[1..], q[1..], sep);
      assert Join(p, sep) == p[0] + sep + jp;
      assert Join(q, sep) == q[0] + sep + jq;
      NonSpaceAround(p[0], q[0], sep, jp, jq);
    }
  }

  lemma NonSpaceAround(x: string, y: string, sep: string, jx: string, jy: string)
    requires NonSpace(x) == NonSpace(y) && NonSpace(jx) == NonSpace(jy)
    ensures NonSpace(x + sep + jx) == NonSpace(y + sep + jy)
  {
    NonSpaceJoin3(x, sep, jx);
    NonSpaceJoin3(y, sep, jy);
  }

  /** Stripping every piece of a join removes white space only. */
  lemma NonSpaceJoinStrip(parts: seq<string>, sep: string)
    ensures NonSpace(Join(MapSeq(parts, Strip), sep)) == NonSpace(Join(parts, sep))
  {
    NonSpaceJoin(MapSeq(parts, Strip), parts, sep);
  }

  /** The length of the leading run of non-white-space characters of `s` from `i`. */
  function TokenEnd(s: string, i: nat): (k: nat)
    requires i <= |s|
    ensures i <= k <= |s|
    ensures NoSpace(s[i..k])
    ensures k == |s| || IsSpace(s[k])
    decreases |s| - i
  {
    if i == |s| || IsSpace(s[i]) then i
    else
      var k := TokenEnd(s, i + 1);
      assert s[i..k] == [s[i]] + s[i + 1..k];
      k
  }

  /** `s.split()`: the maximal runs of non-white-space characters, in order. */
  function SplitWhitespace(s: string): (words: seq<string>)
    ensures forall w :: w in words ==> w != [] && NoSpace(w)
    decreases |s|
  {
    var t := StripLeft(s);
    if t == [] then []
    else
      var k := TokenEnd(t, 0);
      assert t[..k] == t[0..k];
      var rest := SplitWhitespace(t[k..]);
      WordsCons(t[..k], rest);
      [t[..k]] + rest
  }

  lemma WordsCons(w: string, rest: seq<string>)
    requires w != [] && NoSpace(w)
    requires forall x :: x in rest ==> x != [] && NoSpace(x)
    ensures forall x :: x in [w] + rest ==> x != [] && NoSpace(x)
  {
  }

  lemma {:induction false} NonSpaceOfNoSpace(s: string)
    requires NoSpace(s)
    ensures NonSpace(s) == s
  {
    if s != [] {
      NonSpaceOfNoSpace(s[1..]);
      assert s == [s[0]] + s[1..];
    }
  }

  /** The words of `s.split()`, put together, are the non-white-space
      characters of `s`: splitting loses white space and nothing else. */
  lemma {:induction false} SplitWhitespaceConcat(s: string)
    ensures Concat(SplitWhitespace(s)) == NonSpace(s)
    decreases |s|
  {
    var t := StripLeft(s);
    if t == [] {
      NonSpaceEmpty(s);
    } else {
      var k := TokenEnd(t, 0);
      var rest := t[k..];
      assert t == t[..k] + rest;
      NonSpaceConcat(t[..k], rest);
      SplitWhitespaceConcat(rest);
      assert SplitWhitespace(s) == [t[..k]] + SplitWhitespace(rest);
      ConcatAppend([t[..k]], SplitWhitespace(rest));
      assert Concat([t[..k]]) == t[..k] by {
        assert [t[..k]][..0] == [];
      }
      NonSpaceOfNoSpace(t[..k]);
    }
  }

  /** The capital letters of Turkish text: ASCII capitals and Ç, Ğ, Ö, Ş, Ü,
      Â, Î, Û and the dotted İ. */
  predicate IsCapital(c: char) {
    ('A' <= c <= 'Z') || c == 'Ç' || c == 'Ğ' || c == 'Ö' || c == 'Ş' || c == 'Ü'
    || c == 'Â' || c == 'Î' || c == 'Û' || c == 'İ'
  }

  /** Python's `str.lower` on one character of Turkish text. The dotted
      capital İ becomes two characters ("i" and U+0307), as in Python. */
  function LowerChar(c: char): (r: string)
    ensures !IsCapital(c) ==> r == [c]
    ensures c != 'İ' ==> |r| == 1
  {
    if !IsCapital(c) then [c]
    else if 'A' <= c <= 'Z' then [(c as int + 32) as char]
    else if c == 'Ç' then "ç"
    else if c == 'Ğ' then "ğ"
    else if c == 'Ö' then "ö"
    else if c == 'Ş' then "ş"
    else if c == 'Ü' then "ü"
    else if c == 'Â' then "â"
    else if c == 'Î' then "î"
    else if c == 'Û' then "û"
    else "i\U{0307}"
  }

  function Lower(s: string): string {
    if s == [] then [] else Lower(s[..|s| - 1]) + LowerChar(Last(s))
  }

  /** On a text without the dotted capital İ, lowering works character by character. */
  lemma {:induction false} LowerPointwise(s: string)
    requires 'İ' !in s
    ensures |Lower(s)| == |s|
    ensures forall i :: 0 <= i < |s| ==> Lower(s)[i] == LowerChar(s[i])[0]
  {
    if s != [] {
      var init := s[..|s| - 1];
      assert forall c :: c in init ==> c in s;
      LowerPointwise(init);
      var last := LowerChar(Last(s));
      assert |last| == 1;
      assert Lower(s) == Lower(init) + last;
      forall i | 0 <= i < |s| ensures Lower(s)[i] == LowerChar(s[i])[0] {
        if i < |init| {
          assert s[i] == init[i];
        }
      }
    }
  }

  lemma {:induction false} LowerConcat(a: string, b: string)
    ensures Lower(a + b) == Lower(a) + Lower(b)
    decreases |b|
  {
    if b == [] {
      assert a + b == a;
    } else {
      var bInit := b[..|b| - 1];
      assert (a + b)[..|a + b| - 1] == a + bInit;
      calc {
        Lower(a + b);
        Lower(a + bInit) + LowerChar(Last(b));
      == { LowerConcat(a, bInit); }
        Lower(a) + Lower(bInit) + LowerChar(Last(b));
        Lower(a) + Lower(b);
      }
    }
  }

  /** Lowering a text that has no capitals changes nothing. */
  lemma {:induction false} LowerNoCapitals(s: string)
    requires forall i :: 0 <= i < |s| ==> !IsCapital(s[i])
    ensures Lower(s) == s
  {
    if s != [] {
      var init := s[..|s| - 1];
      assert forall i :: 0 <= i < |init| ==> init[i] == s[i];
      LowerNoCapitals(init);
      assert s == init + [Last(s)];
    }
  }

  /** Lowering a word whose only capital is its first letter lowers that letter. */
  lemma LowerInitialCapital(c: char, rest: string)
    requires forall i :: 0 <= i < |rest| ==> !IsCapital(rest[i])
    ensures Lower([c] + rest) == LowerChar(c) + rest
  {
    assert [c][..0] == [];
    assert Lower([c]) == LowerChar(c);
    LowerConcat([c], rest);
    LowerNoCapitals(rest);
  }

  function DigitChar(d: nat): char
    requires d < 10
  {
    ('0' as int + d) as char
  }

  /** `str(n)` for a natural number. */
  function NatToString(n: nat): (r: string)
    ensures r != []
    ensures forall i :: 0 <= i < |r| ==> '0' <= r[i] <= '9'
  {
    if n < 10 then [DigitChar(n)] else NatToString(n / 10) + [DigitChar(n % 10)]
  }

  /** The number a string of decimal digits denotes. */
  function DecimalValue(s: string): nat
    requires forall i :: 0 <= i < |s| ==> '0' <= s[i] <= '9'
  {
    if s == [] then 0
    else DecimalValue(s[..|s| - 1]) * 10 + (Last(s) as int - '0' as int)
  }

  /** Reading the rendered digits back gives the number, and there is no
      leading zero. */
  lemma {:induction false} NatToStringRoundTrip(n: nat)
    ensures DecimalValue(NatToString(n)) == n
    ensures NatToString(n)[0] != '0' || n == 0
  {
    if n >= 10 {
      NatToStringRoundTrip(n / 10);
      var r := NatToString(n);
      assert r[..|r| - 1] == NatToString(n / 10);
      assert r[0] == NatToString(n / 10)[0];
    }
  }

  /** `str(i)` for an integer. */
  function IntToString(i: int): (r: string)
    ensures r != []
  {
    if i < 0 then "-" + NatToString(-i) else NatToString(i)
  }

  /** `"".join(parts)`. */
  function Concat(parts: seq<string>): string {
    if parts == [] then "" else Concat(parts[..|parts| - 1]) + Last(parts)
  }

  lemma {:induction false} ConcatAppend(a: seq<string>, b: seq<string>)
    ensures Concat(a + b) == Concat(a) + Concat(b)
    decreases |b|
  {
    if b == [] {
      assert a + b == a;
    } else {
      var bInit := b[..|b| - 1];
      assert (a + b)[..|a + b| - 1] == a + bInit;
      calc {
        Concat(a + b);
        Concat(a + bInit) + Last(b);
      == { ConcatAppend(a, bInit); }
        Concat(a) + Concat(bInit) + Last(b);
        Concat(a) + Concat(b);
      }
    }
  }
}
