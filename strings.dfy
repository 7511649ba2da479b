/** Character classes, prefix tests and line joining shared by the rewriter. */
module Strings {

  datatype Option<T> = None | Some(value: T)

  /** The regular-expression class `\w`, restricted to ASCII. */
  predicate IsWordChar(c: char) {
    ('a' <= c <= 'z') || ('A' <= c <= 'Z') || ('0' <= c <= '9') || c == '_'
  }

  /** The class `[\w\.]` used for type text. */
  predicate IsTypeChar(c: char) {
    IsWordChar(c) || c == '.'
  }

  /** The two character classes a greedy `+` run is taken over. */
  datatype CharClass = Word | TypeText

  predicate InClass(cls: CharClass, c: char) {
    match cls
    case Word => IsWordChar(c)
    case TypeText => IsTypeChar(c)
  }

  predicate StartsWith(s: string, p: string) {
    |p| <= |s| && s[..|p|] == p
  }

  /** A prefix test fails as soon as the first characters differ. */
  lemma FirstCharMismatch(s: string, p: string)
    requires p != [] && (s == [] || s[0] != p[0])
    ensures !StartsWith(s, p)
  {
    if |p| <= |s| {
      assert s[..|p|][0] == s[0];
    }
  }

  /** Starting with `q + t` is starting with `q` and going on with `t`. */
  lemma StartsWithConcat(s: string, q: string, t: string)
    ensures StartsWith(s, q + t) <==> StartsWith(s, q) && StartsWith(s[|q|..], t)
  {
    if StartsWith(s, q + t) {
      assert s[..|q|] == (q + t)[..|q|];
      assert s[|q|..][..|t|] == s[..|q| + |t|][|q|..];
    }
    if StartsWith(s, q) && StartsWith(s[|q|..], t) {
      assert s[..|q| + |t|] == s[..|q|] + s[|q|..][..|t|];
    }
  }

  predicate EndsWith(s: string, p: string) {
    |p| <= |s| && s[|s| - |p|..] == p
  }

  /** Length of the longest prefix of `s` made of `cls` characters (a greedy `\w*`). */
  function Run(cls: CharClass, s: string): (n: nat)
    ensures n <= |s|
    ensures forall i :: 0 <= i < n ==> InClass(cls, s[i])
    ensures n == |s| || !InClass(cls, s[n])
  {
    if s == [] || !InClass(cls, s[0]) then 0 else 1 + Run(cls, s[1..])
  }

  /** `w` is what a greedy `cls+` matches at the start of `t`: a non-empty run that
      cannot be extended. */
  predicate MaximalRun(cls: CharClass, t: string, w: string) {
    w != [] && StartsWith(t, w)
    && (forall i :: 0 <= i < |w| ==> InClass(cls, w[i]))
    && (|w| == |t| || !InClass(cls, t[|w|]))
  }

  /** A greedy run is unique: it is exactly the prefix `Run` measures. */
  lemma MaximalRunIsRun(cls: CharClass, t: string, w: string)
    ensures MaximalRun(cls, t, w) <==> (Run(cls, t) > 0 && w == t[..Run(cls, t)])
  {
  }

  /** The run at the start of `w + rest` is `w` when `w` is all `cls` and `rest` does not
      go on with a `cls` character. */
  lemma {:induction false} RunOf(cls: CharClass, w: string, rest: string)
    requires forall i :: 0 <= i < |w| ==> InClass(cls, w[i])
    requires rest == [] || !InClass(cls, rest[0])
    ensures Run(cls, w + rest) == |w|
    decreases |w|
  {
    if w != [] {
      assert (w + rest)[0] == w[0];
      assert (w + rest)[1..] == w[1..] + rest;
      RunOf(cls, w[1..], rest);
    } else {
      assert w + rest == rest;
    }
  }

  /** Concatenation regrouped to the left. */
  lemma Regroup(a: string, b: string, r: string)
    ensures a + (b + r) == a + b + r
  {
  }

  /** Python's `"\n".join(xs)`. */
  function Join(xs: seq<string>): (r: string)
    ensures xs == [] ==> r == ""
    ensures |xs| == 1 ==> r == xs[0]
  {
    if xs == [] then ""
    else if |xs| == 1 then xs[0]
    else xs[0] + "\n" + Join(xs[1..])
  }

  /** Index of the first `c` in `s`, or `|s|` when there is none. */
  function IndexOf(s: string, c: char): (i: nat)
    ensures i <= |s|
    ensures i < |s| ==> s[i] == c
    ensures forall k :: 0 <= k < i ==> s[k] != c
  {
    if s == [] then 0
    else if s[0] == c then 0
    else 1 + IndexOf(s[1..], c)
  }

  /** Python's `s.split("\n")`. */
  function SplitLines(s: string): (r: seq<string>)
    ensures |r| >= 1
    decreases |s|
  {
    var i := IndexOf(s, '\n');
    if i == |s| then [s] else [s[..i]] + SplitLines(s[i + 1..])
  }

  predicate NoNewline(s: string) {
    forall k :: 0 <= k < |s| ==> s[k] != '\n'
  }

  /** Joining lines that hold no line break and splitting the result again gives the
      lines back. */
  lemma {:induction false} SplitJoin(xs: seq<string>)
    requires xs != []
    requires forall k :: 0 <= k < |xs| ==> NoNewline(xs[k])
    ensures SplitLines(Join(xs)) == xs
    decreases |xs|
  {
    if |xs| == 1 {
      assert IndexOf(xs[0], '\n') == |xs[0]|;
    } else {
      var rest := Join(xs[1..]);
      SplitAfterLine(xs[0], rest);
      SplitJoin(xs[1..]);
      assert xs == [xs[0]] + xs[1..];
    }
  }

  lemma SplitAfterLine(a: string, b: string)
    requires NoNewline(a)
    ensures SplitLines(a + "\n" + b) == [a] + SplitLines(b)
  {
    var s := a + "\n" + b;
    assert s[|a|] == '\n';
    assert forall k :: 0 <= k < |a| ==> s[k] == a[k];
    assert IndexOf(s, '\n') == |a|;
    assert s[..|a|] == a;
    assert s[|a| + 1..] == b;
  }

  /** Join distributes over concatenation of two non-empty line lists. */
  lemma {:induction false} JoinAppend(xs: seq<string>, ys: seq<string>)
    requires xs != [] && ys != []
    ensures Join(xs + ys) == Join(xs) + "\n" + Join(ys)
    decreases |xs|
  {
    if |xs| == 1 {
      assert (xs + ys)[1..] == ys;
    } else {
      assert (xs + ys)[1..] == xs[1..] + ys;
      JoinAppend(xs[1..], ys);
    }
  }

  /** `ys` is `xs` with `f` applied to every line. Stated from the last line back, so a
      loop that has handled one more line extends it by one step. */
  ghost predicate Mapped(f: string -> string, xs: seq<string>, ys: seq<string>)
    decreases |xs|
  {
    |xs| == |ys|
    && (xs != [] ==> Mapped(f, xs[..|xs| - 1], ys[..|ys| - 1]) && ys[|ys| - 1] == f(xs[|xs| - 1]))
  }

  /** Every line of a mapped sequence is the image of the line at the same index. */
  lemma {:induction false} MappedAt(f: string -> string, xs: seq<string>, ys: seq<string>, k: nat)
    requires Mapped(f, xs, ys) && k < |xs|
    ensures ys[k] == f(xs[k])
    decreases |xs|
  {
    if k < |xs| - 1 {
      MappedAt(f, xs[..|xs| - 1], ys[..|ys| - 1], k);
    }
  }

  /** Mapping one more line. */
  lemma MappedSnoc(f: string -> string, xs: seq<string>, ys: seq<string>, x: string)
    requires Mapped(f, xs, ys)
    ensures Mapped(f, xs + [x], ys + [f(x)])
  {
    assert (xs + [x])[..|xs|] == xs;
    assert (ys + [f(x)])[..|ys|] == ys;
  }

  /** The element at `i` of two sequences that agree from `i` on. */
  lemma SliceHead(xs: seq<string>, ys: seq<string>, i: nat)
    requires i < |xs| == |ys| && xs[i..] == ys[i..]
    ensures xs[i] == ys[i] && xs[i + 1..] == ys[i + 1..]
  {
    assert xs[i..][0] == ys[i..][0];
    assert xs[i + 1..] == xs[i..][1..];
    assert ys[i + 1..] == ys[i..][1..];
  }

  /** One more element of `xs`, and of `ys`, taken after `i` steps. */
  lemma SliceStep(xs: seq<string>, ys: seq<string>, done: seq<string>, i: nat)
    requires i < |xs| == |ys| && xs[..i] == done
    ensures xs[..i + 1] == done + [xs[i]]
    ensures ys[..i + 1] == ys[..i] + [ys[i]]
  {
    assert xs[..i + 1] == xs[..i] + [xs[i]];
  }

  lemma SliceAll(xs: seq<string>, ys: seq<string>)
    ensures xs[..|xs|] == xs && ys[..|ys|] == ys
  {
  }
}
