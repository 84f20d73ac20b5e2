/** The PHP string built-ins the job codec and the table loader use
    (`strpos`, `explode`, `implode`, `trim`, truthiness, integer-to-string),
    stated over `string`, Dafny's `seq<char>`. Only the behaviour the
    callers rely on is modelled: delimiters are never empty here. */
module PhpStrings {
  import opened Wrappers

  // ---------------------------------------------------------------------
  // Occurrences and `strpos`

  /** `d` occurs in `s` starting at index `i`. */
  predicate OccursAt(s: string, d: string, i: int) {
    0 <= i && i + |d| <= |s| && s[i..i + |d|] == d
  }

  /** `s` holds no occurrence of `d`. */
  predicate Free(s: string, d: string) {
    forall i | 0 <= i < |s| :: !OccursAt(s, d, i)
  }

  /** `s` starts with `p` (`0 === strpos($s, $p)`). */
  predicate StartsWith(s: string, p: string) {
    |p| <= |s| && s[..|p|] == p
  }

  function FindFrom(s: string, d: string, k: nat): (r: Option<nat>)
    requires |d| > 0
    ensures r.Some? ==> k <= r.value && OccursAt(s, d, r.value)
    ensures r.Some? ==> forall j | k <= j < r.value :: !OccursAt(s, d, j)
    ensures r.None? ==> forall j | k <= j < |s| :: !OccursAt(s, d, j)
    decreases |s| - k
  {
    if |s| < k + |d| then None
    else if s[k..k + |d|] == d then Some(k)
    else FindFrom(s, d, k + 1)
  }

  /** `strpos($s, $d)`: the index of the first occurrence of `d` in `s`. */
  function Find(s: string, d: string): (r: Option<nat>)
    requires |d| > 0
    ensures r.Some? ==> OccursAt(s, d, r.value)
    ensures r.Some? ==> forall j :: 0 <= j < r.value ==> !OccursAt(s, d, j)
    ensures r.None? <==> Free(s, d)
  {
    FindFrom(s, d, 0)
  }

  /** `0 === strpos($s, $p)` is the prefix test `StartsWith`. */
  lemma StartsWithFind(s: string, p: string)
    requires |p| > 0
    ensures StartsWith(s, p) <==> Find(s, p) == Some(0)
  {
    if StartsWith(s, p) {
      assert OccursAt(s, p, 0);
    }
  }

  /** `false !== strpos($s, $d)`. */
  predicate Contains(s: string, d: string)
    requires |d| > 0
  {
    Find(s, d).Some?
  }

  /** The first occurrence of `d` in `s` is the one at `i`. */
  lemma FindFirst(s: string, d: string, i: nat)
    requires |d| > 0
    requires OccursAt(s, d, i)
    requires forall j :: 0 <= j < i ==> !OccursAt(s, d, j)
    ensures Find(s, d) == Some(i)
  {
  }

  /** A single character occurs in `s` exactly when it is an element of `s`. */
  lemma FreeChar(s: string, c: char)
    ensures Free(s, [c]) <==> c !in s
  {
    if c in s {
      var i :| 0 <= i < |s| && s[i] == c;
      assert s[i..i + 1] == [c];
      assert OccursAt(s, [c], i);
    } else {
      forall i | 0 <= i < |s|
        ensures !OccursAt(s, [c], i)
      {
        assert s[i..i + 1][0] == s[i];
      }
    }
  }

  /** Every slice of a string free of `d` is free of `d`. */
  lemma FreeSlice(s: string, d: string, i: int, j: int)
    requires 0 <= i <= j <= |s|
    requires Free(s, d)
    ensures Free(s[i..j], d)
  {
    var t := s[i..j];
    forall k | 0 <= k < |t|
      ensures !OccursAt(t, d, k)
    {
      if k + |d| <= |t| {
        var u, v := t[k..k + |d|], s[i + k..i + k + |d|];
        assert forall m | 0 <= m < |d| :: u[m] == t[k + m] == s[i + k + m] == v[m];
        assert u == v;
        assert !OccursAt(s, d, i + k);
      }
    }
  }

  /** The text before the first occurrence of `d` is free of `d`. */
  lemma FreeBeforeFirst(s: string, d: string, i: nat)
    requires i <= |s|
    requires forall j :: 0 <= j < i ==> !OccursAt(s, d, j)
    ensures Free(s[..i], d)
  {
    var t := s[..i];
    forall k | 0 <= k < |t|
      ensures !OccursAt(t, d, k)
    {
      if k + |d| <= |t| {
        assert t[k..k + |d|] == s[k..k + |d|];
        assert !OccursAt(s, d, k);
      }
    }
  }

  /** Joining two strings free of a two-character delimiter whose characters
      differ cannot create an occurrence unless the seam spells it. */
  lemma FreeConcatPair(a: string, b: string, d: string)
    requires |d| == 2
    requires Free(a, d) && Free(b, d)
    requires |a| == 0 || |b| == 0 || a[|a| - 1] != d[0] || b[0] != d[1]
    ensures Free(a + b, d)
  {
    var s := a + b;
    forall k | 0 <= k < |s|
      ensures !OccursAt(s, d, k)
    {
      if k + 2 <= |s| {
        var w := s[k..k + 2];
        if k + 1 < |a| {
          assert a[k..k + 2] == w;
          assert !OccursAt(a, d, k);
        } else if k >= |a| {
          assert b[k - |a|..k - |a| + 2] == w;
          assert !OccursAt(b, d, k - |a|);
        } else {
          assert w[0] == a[|a| - 1] && w[1] == b[0];
        }
      }
    }
  }

  /** A string lacking the second character of a two-character delimiter is free of it. */
  lemma FreeWithoutLast(s: string, d: string)
    requires |d| == 2
    requires d[1] !in s
    ensures Free(s, d)
  {
    forall k | 0 <= k < |s|
      ensures !OccursAt(s, d, k)
    {
    }
  }

  /** A string lacking the first character of a two-character delimiter is free of it. */
  lemma FreeWithoutFirst(s: string, d: string)
    requires |d| == 2
    requires d[0] !in s
    ensures Free(s, d)
  {
    forall k | 0 <= k < |s|
      ensures !OccursAt(s, d, k)
    {
    }
  }

  /** In `a + d + b`, with `a` free of a two-character `d` and not ending in
      its first character, the first occurrence of `d` is right after `a`. */
  lemma FirstAfterPair(a: string, d: string, b: string)
    requires |d| == 2
    requires Free(a, d)
    requires |a| == 0 || a[|a| - 1] != d[0]
    ensures forall j :: 0 <= j < |a| ==> !OccursAt(a + d + b, d, j)
  {
    var s := a + d + b;
    forall j | 0 <= j < |a|
      ensures !OccursAt(s, d, j)
    {
      var w := s[j..j + 2];
      if j + 2 <= |a| {
        assert a[j..j + 2] == w;
        assert !OccursAt(a, d, j);
      } else {
        assert w[0] == a[|a| - 1];
      }
    }
  }

  // ---------------------------------------------------------------------
  // `explode` and `implode`

  /** `explode($d, $s)`: the pieces of `s` between the occurrences of `d`,
      scanning from the left. */
  function Explode(s: string, d: string): (r: seq<string>)
    requires |d| > 0
    ensures |r| >= 1
    decreases |s|
  {
    match Find(s, d)
    case None => [s]
    case Some(i) => [s[..i]] + Explode(s[i + |d|..], d)
  }

  /** No piece `explode` returns holds the delimiter. */
  lemma {:induction false} ExplodePiecesFree(s: string, d: string)
    requires |d| > 0
    ensures forall k :: 0 <= k < |Explode(s, d)| ==> Free(Explode(s, d)[k], d)
    decreases |s|
  {
    var f := Find(s, d);
    if f.Some? {
      var i := f.value;
      FreeBeforeFirst(s, d, i);
      ExplodePiecesFree(s[i + |d|..], d);
    }
  }

  /** `implode($sep, $parts)`. */
  function Implode(parts: seq<string>, sep: string): string
    decreases |parts|
  {
    if |parts| == 0 then ""
    else if |parts| == 1 then parts[0]
    else parts[0] + sep + Implode(parts[1..], sep)
  }

  /** A text is the part before `i`, the `n` characters from `i`, and the rest. */
  lemma SliceThree(s: string, i: nat, n: nat)
    requires i + n <= |s|
    ensures s == s[..i] + s[i..i + n] + s[i + n..]
  {
    assert s[..i] + s[i..i + n] == s[..i + n];
  }

  /** One step of `Explode`: the piece before the first delimiter, then the rest. */
  lemma ExplodeStep(s: string, d: string, i: nat)
    requires |d| > 0
    requires Find(s, d) == Some(i)
    ensures i + |d| <= |s|
    ensures Explode(s, d) == [s[..i]] + Explode(s[i + |d|..], d)
    ensures s == s[..i] + d + s[i + |d|..]
  {
    assert OccursAt(s, d, i);
    SliceThree(s, i, |d|);
  }

  /** Joining the pieces back with the delimiter gives the original text. */
  lemma {:induction false} ImplodeExplode(s: string, d: string)
    requires |d| > 0
    ensures Implode(Explode(s, d), d) == s
    decreases |s|
  {
    var f := Find(s, d);
    if f.Some? {
      var i := f.value;
      var rest := s[i + |d|..];
      ExplodeStep(s, d, i);
      ImplodeExplode(rest, d);
      ImplodeCons(s[..i], Explode(rest, d), d);
    }
  }

  /** Explode of a text free of the delimiter is the text alone. */
  lemma ExplodeFree(s: string, d: string)
    requires |d| > 0
    requires Free(s, d)
    ensures Explode(s, d) == [s]
  {
  }

  /** When the first occurrence of `d` is right after `a`, explode yields `a`
      followed by the pieces of what comes after the delimiter. */
  lemma ExplodeAt(a: string, d: string, b: string)
    requires |d| > 0
    requires forall j :: 0 <= j < |a| ==> !OccursAt(a + d + b, d, j)
    ensures Explode(a + d + b, d) == [a] + Explode(b, d)
  {
    var s := a + d + b;
    assert s[|a|..|a| + |d|] == d;
    FindFirst(s, d, |a|);
    assert s[..|a|] == a;
    assert s[|a| + |d|..] == b;
  }

  /** Single-character form of `ExplodeAt`. */
  lemma ExplodeAtChar(a: string, c: char, b: string)
    requires c !in a
    ensures Explode(a + [c] + b, [c]) == [a] + Explode(b, [c])
  {
    var s := a + [c] + b;
    forall j | 0 <= j < |a|
      ensures !OccursAt(s, [c], j)
    {
      assert s[j..j + 1][0] == a[j];
    }
    ExplodeAt(a, [c], b);
  }

  /** Implode of a non-empty list with one more element in front. */
  lemma ImplodeCons(x: string, parts: seq<string>, sep: string)
    requires |parts| > 0
    ensures Implode([x] + parts, sep) == x + sep + Implode(parts, sep)
  {
    assert ([x] + parts)[1..] == parts;
  }

  /** Implode of a non-empty list with one more element at the end. */
  lemma {:induction false} ImplodeSnoc(parts: seq<string>, x: string, sep: string)
    requires |parts| > 0
    ensures Implode(parts + [x], sep) == Implode(parts, sep) + sep + x
    decreases |parts|
  {
    if |parts| == 1 {
      assert (parts + [x])[1..] == [x];
    } else {
      ImplodeSnoc(parts[1..], x, sep);
      assert (parts + [x])[1..] == parts[1..] + [x];
    }
  }

  /** Implode of two non-empty lists joined is the two implodes joined by the separator. */
  lemma {:induction false} ImplodeAppend(a: seq<string>, b: seq<string>, sep: string)
    requires |a| > 0 && |b| > 0
    ensures Implode(a + b, sep) == Implode(a, sep) + sep + Implode(b, sep)
    decreases |a|
  {
    if |a| == 1 {
      ImplodeCons(a[0], b, sep);
      assert a + b == [a[0]] + b;
    } else {
      var x, rest := a[0], a[1..];
      ImplodeAppend(rest, b, sep);
      assert a + b == [x] + (rest + b);
      ImplodeCons(x, rest + b, sep);
      ImplodeCons(x, rest, sep);
      assert a == [x] + rest;
      var l, m, n := Implode(rest, sep), Implode(b, sep), Implode(a + b, sep);
      calc {
        n;
        x + sep + (l + sep + m);
        x + sep + l + sep + m;
      }
    }
  }

  /** Exploding a joined list whose first item lacks the delimiter gives
      that item, then the pieces of the rest joined. */
  lemma ExplodeImplodeCons(x: string, rest: seq<string>, c: char)
    requires |rest| > 0 && c !in x
    ensures Explode(Implode([x] + rest, [c]), [c]) == [x] + Explode(Implode(rest, [c]), [c])
  {
    ImplodeCons(x, rest, [c]);
    ExplodeAtChar(x, c, Implode(rest, [c]));
  }

  /** Splitting the join of `[x] + rest` takes off `x`. */
  predicate ConsSplits(x: string, rest: seq<string>, join: seq<string> -> string, split: string -> seq<string>) {
    split(join([x] + rest)) == [x] + split(join(rest))
  }

  /** The induction behind `ExplodeImplodeSnoc`, for any `join` and `split`
      where splitting a join takes off a leading item that lacks `c`. */
  lemma {:induction false} SplitJoinSnoc(init: seq<string>, last: string, c: char,
                                         join: seq<string> -> string, split: string -> seq<string>)
    requires forall k | 0 <= k < |init| :: c !in init[k]
    requires forall x: string, rest: seq<string> | |rest| > 0 && c !in x :: ConsSplits(x, rest, join, split)
    requires join([last]) == last
    ensures split(join(init + [last])) == init + split(last)
    decreases |init|
  {
    if |init| == 0 {
      assert init + [last] == [last];
    } else {
      var x, more := init[0], init[1..];
      assert init + [last] == [x] + (more + [last]);
      assert ConsSplits(x, more + [last], join, split);
      SplitJoinSnoc(more, last, c, join, split);
      assert init == [x] + more;
    }
  }

  /** Implode with the one-character separator `c`, as a function value. */
  function JoinWith(c: char): seq<string> -> string {
    parts => Implode(parts, [c])
  }

  /** Explode at the one-character delimiter `c`, as a function value. */
  function SplitAt(c: char): string -> seq<string> {
    s => Explode(s, [c])
  }

  /** Exploding a joined list whose leading items lack the delimiter gives
      back those items, then the pieces of the last one. */
  lemma ExplodeImplodeSnoc(init: seq<string>, last: string, c: char)
    requires forall k | 0 <= k < |init| :: c !in init[k]
    ensures Explode(Implode(init + [last], [c]), [c]) == init + Explode(last, [c])
  {
    forall x: string, rest: seq<string> | |rest| > 0 && c !in x
      ensures ConsSplits(x, rest, JoinWith(c), SplitAt(c))
    {
      ExplodeImplodeCons(x, rest, c);
    }
    SplitJoinSnoc(init, last, c, JoinWith(c), SplitAt(c));
  }

  /** `explode` on a one-character delimiter yields one piece more than the
      number of times the character occurs. */
  lemma {:induction false} ExplodeCount(s: string, c: char)
    ensures |Explode(s, [c])| == multiset(s)[c] + 1
    decreases |s|
  {
    var f := Find(s, [c]);
    if f.None? {
      FreeChar(s, c);
      assert multiset(s)[c] == 0;
    } else {
      var i := f.value;
      var rest := s[i + 1..];
      ExplodeStep(s, [c], i);
      ExplodeCount(rest, c);
      FreeBeforeFirst(s, [c], i);
      FreeChar(s[..i], c);
      assert multiset(s[..i])[c] == 0;
      assert multiset(s) == multiset(s[..i]) + multiset([c]) + multiset(rest);
    }
  }

  // ---------------------------------------------------------------------
  // `list($head, $field) = explode($d, $s)` guarded by `strpos`

  /** The text of `s` before the first occurrence of `d` (all of `s` if none). */
  function Before(s: string, d: string): string
    requires |d| > 0
  {
    match Find(s, d)
    case None => s
    case Some(i) => s[..i]
  }

  /** The text of `s` after the first occurrence of `d` (empty if none). */
  function After(s: string, d: string): string
    requires |d| > 0
  {
    match Find(s, d)
    case None => ""
    case Some(i) => s[i + |d|..]
  }

  /** The text before the first `d` is a prefix. */
  lemma BeforePrefix(s: string, d: string)
    requires |d| > 0
    ensures |Before(s, d)| <= |s| && Before(s, d) == s[..|Before(s, d)|]
  {
  }

  /** The text after the first `d` is a suffix. */
  lemma AfterSuffix(s: string, d: string)
    requires |d| > 0
    ensures |After(s, d)| <= |s| && After(s, d) == s[|s| - |After(s, d)|..]
  {
  }

  /** `Job::fromString`'s `if (false !== strpos($s, $d)) { list($head, $field) = explode($d, $s); }`
      with `$head = $s` and `$field = ''` beforehand: the head is the text
      before the first `d`, the field the text between the first and the
      second `d` (or to the end); anything after a second `d` is dropped. */
  function SplitOff(s: string, d: string): (r: (string, string))
    requires |d| > 0
    ensures !Contains(s, d) ==> r == (s, "")
    ensures Contains(s, d) ==> r == (Before(s, d), Before(After(s, d), d))
    ensures r.1 == Before(After(s, d), d)
    ensures Free(r.0, d) && Free(r.1, d)
  {
    if Contains(s, d) then
      var pieces := Explode(s, d);
      ExplodePiecesFree(s, d);
      assert pieces[1] == Explode(After(s, d), d)[0];
      (pieces[0], pieces[1])
    else
      (s, "")
  }

  /** Neither part `SplitOff` returns holds a character its input lacks. */
  lemma SplitOffKeepsOut(s: string, d: string, c: char)
    requires |d| > 0
    requires c !in s
    ensures c !in SplitOff(s, d).0 && c !in SplitOff(s, d).1
  {
    var (h, f) := SplitOff(s, d);
    var a := After(s, d);
    BeforePrefix(s, d);
    AfterSuffix(s, d);
    BeforePrefix(a, d);
    assert h == s || h == s[..|h|];
    assert c !in a;
    assert f == a[..|f|];
  }

  /** `SplitOff` on `a + d + b` where `d` first occurs right after `a` and `b`
      is free of `d` gives back `a` and `b`. */
  lemma SplitOffAt(a: string, d: string, b: string)
    requires |d| > 0
    requires forall j :: 0 <= j < |a| ==> !OccursAt(a + d + b, d, j)
    requires Free(b, d)
    ensures SplitOff(a + d + b, d) == (a, b)
  {
    var s := a + d + b;
    assert s[|a|..|a| + |d|] == d;
    FindFirst(s, d, |a|);
    assert s[..|a|] == a;
    assert s[|a| + |d|..] == b;
  }

  /** Single-character form of `SplitOffAt`. */
  lemma SplitOffAtChar(a: string, c: char, b: string)
    requires c !in a && c !in b
    ensures SplitOff(a + [c] + b, [c]) == (a, b)
  {
    var s := a + [c] + b;
    forall j | 0 <= j < |a|
      ensures !OccursAt(s, [c], j)
    {
      assert s[j..j + 1][0] == a[j];
    }
    FreeChar(b, c);
    SplitOffAt(a, [c], b);
  }

  /** `SplitOff` leaves a text free of the delimiter untouched. */
  lemma SplitOffFree(s: string, d: string)
    requires |d| > 0
    requires Free(s, d)
    ensures SplitOff(s, d) == (s, "")
  {
  }

  // ---------------------------------------------------------------------
  // `trim`

  /** The characters PHP's `trim` strips by default: space, tab, line feed,
      carriage return, NUL and vertical tab. */
  predicate IsTrimChar(c: char) {
    c == ' ' || c == '\t' || c == '\n' || c == '\r' || c == '\0' || c == '\U{B}'
  }

  predicate AllTrimChars(s: string) {
    forall k | 0 <= k < |s| :: IsTrimChar(s[k])
  }

  /** `s` neither starts nor ends with a character `trim` strips. */
  predicate Trimmed(s: string) {
    |s| == 0 || (!IsTrimChar(s[0]) && !IsTrimChar(s[|s| - 1]))
  }

  function TrimLeft(s: string): (r: string)
    ensures |r| <= |s| && r == s[|s| - |r|..]
    ensures |r| == 0 || !IsTrimChar(r[0])
    decreases |s|
  {
    if |s| > 0 && IsTrimChar(s[0]) then TrimLeft(s[1..]) else s
  }

  function TrimRight(s: string): (r: string)
    ensures |r| <= |s| && r == s[..|r|]
    ensures |r| == 0 || !IsTrimChar(r[|r| - 1])
    decreases |s|
  {
    if |s| > 0 && IsTrimChar(s[|s| - 1]) then TrimRight(s[..|s| - 1]) else s
  }

  /** PHP's `trim($s)`: `s` without its leading and trailing whitespace. */
  function Trim(s: string): (r: string)
    ensures Trimmed(r)
    ensures Trimmed(s) ==> r == s
    ensures |r| <= |s|
  {
    TrimRight(TrimLeft(s))
  }

  /** A string is its own trim exactly when it is `Trimmed`. */
  lemma TrimFixpoint(s: string)
    ensures Trim(s) == s <==> Trimmed(s)
  {
  }

  /** Trimming a text never introduces a delimiter occurrence. */
  lemma TrimFree(s: string, d: string)
    requires Free(s, d)
    ensures Free(Trim(s), d)
  {
    var l := TrimLeft(s);
    var r := TrimRight(l);
    assert l == s[|s| - |l|..|s|];
    FreeSlice(s, d, |s| - |l|, |s|);
    assert r == l[0..|r|];
    FreeSlice(l, d, 0, |r|);
  }

  /** Trimming a text never introduces a character. */
  lemma TrimChar(s: string, c: char)
    requires c !in s
    ensures c !in Trim(s)
  {
    FreeChar(s, c);
    TrimFree(s, [c]);
    FreeChar(Trim(s), c);
  }

  lemma {:induction false} TrimLeftSkips(w: string, s: string)
    requires AllTrimChars(w)
    ensures TrimLeft(w + s) == TrimLeft(s)
    decreases |w|
  {
    if |w| > 0 {
      assert (w + s)[1..] == w[1..] + s;
      TrimLeftSkips(w[1..], s);
    } else {
      assert w + s == s;
    }
  }

  lemma {:induction false} TrimRightSkips(s: string, w: string)
    requires AllTrimChars(w)
    ensures TrimRight(s + w) == TrimRight(s)
    decreases |w|
  {
    if |w| > 0 {
      assert (s + w)[..|s + w| - 1] == s + w[..|w| - 1];
      TrimRightSkips(s, w[..|w| - 1]);
    } else {
      assert s + w == s;
    }
  }

  /** Whitespace around an already trimmed text is exactly what `trim` removes. */
  lemma TrimPadded(w1: string, s: string, w2: string)
    requires AllTrimChars(w1) && AllTrimChars(w2)
    requires Trimmed(s)
    ensures Trim(w1 + s + w2) == s
  {
    var x := s + w2;
    assert w1 + s + w2 == w1 + x;
    TrimLeftSkips(w1, x);
    if |s| == 0 {
      assert x == w2 + "";
      TrimLeftSkips(w2, "");
      assert TrimLeft(x) == "";
    } else {
      assert x[0] == s[0];
      assert TrimLeft(x) == x;
      TrimRightSkips(s, w2);
      assert TrimRight(s) == s;
    }
  }

  // ---------------------------------------------------------------------
  // Truthiness and integer keys

  /** PHP truthiness of a string: only `""` and `"0"` are false. */
  predicate Truthy(s: string) {
    s != "" && s != "0"
  }

  /** What a truthiness-guarded optional field reads back as: the field itself
      when it is truthy, and the empty string when it is `""` or `"0"`. */
  function Shown(s: string): string {
    if Truthy(s) then s else ""
  }

  function DigitChar(d: nat): (c: char)
    requires d < 10
  {
    ('0' as int + d) as char
  }

  /** The decimal text of a non-negative integer, as PHP's `'l' . $index` writes it. */
  function NatToString(n: nat): (r: string)
    ensures 1 <= |r|
    ensures n >= 10 ==> |r| >= 2
    decreases n
  {
    if n < 10 then [DigitChar(n)] else NatToString(n / 10) + [DigitChar(n % 10)]
  }

  /** Distinct integers have distinct decimal texts. */
  lemma {:induction false} NatToStringInjective(a: nat, b: nat)
    requires NatToString(a) == NatToString(b)
    ensures a == b
    decreases a
  {
    var sa, sb := NatToString(a), NatToString(b);
    if a < 10 && b < 10 {
      assert sa[0] == DigitChar(a) && sb[0] == DigitChar(b);
    } else if a >= 10 && b >= 10 {
      var pa, pb := NatToString(a / 10), NatToString(b / 10);
      assert sa == pa + [DigitChar(a % 10)];
      assert sb == pb + [DigitChar(b % 10)];
      assert sa[|sa| - 1] == sb[|sb| - 1];
      assert a % 10 == b % 10;
      assert pa == sa[..|sa| - 1] == sb[..|sb| - 1] == pb;
      NatToStringInjective(a / 10, b / 10);
    }
  }
}
