/** The second stage of translate-c.py: each line of the Zig translation is classified as
    a function declaration, a struct alias or anything else, and the first two kinds are
    rewritten with the substitutions of `Rewrites`. */
module Lines {
  import opened Strings
  import opened Namespaces
  import opened Rewrites

  const ExternPrefix: string := "pub extern fn"
  const ConstPrefix: string := "pub const "
  const FnPointerInfix: string := " = ?*const fn"
  const AliasPrefix: string := "pub const t_"
  const AliasInfix: string := " = struct__"

  // ----- `\w+` followed by a literal -----------------------------------------------

  /** `(\w+)` followed by `lit` matches at the start of `t`, capturing `w`. */
  predicate WordsThen(t: string, w: string, lit: string) {
    w != [] && (forall i :: 0 <= i < |w| ==> IsWordChar(w[i])) && StartsWith(t, w + lit)
  }

  /** The backtracking of `\w+` before a literal that starts with a non-word character
      ends at the end of the word run: the match exists exactly when the whole run is
      followed by the literal, and it is unique. */
  function MatchWordsThen(t: string, lit: string): (r: Option<string>)
    requires lit != [] && !IsWordChar(lit[0])
    ensures r.Some? ==> WordsThen(t, r.value, lit)
    ensures forall w :: WordsThen(t, w, lit) ==> r == Some(w)
  {
    var n := Run(Word, t);
    assert forall w :: WordsThen(t, w, lit) ==> n > 0 && w == t[..n] && StartsWith(t[n..], lit) by {
      forall w | WordsThen(t, w, lit) ensures n > 0 && w == t[..n] && StartsWith(t[n..], lit) {
        assert t[..|w| + |lit|] == w + lit;
        assert t[..|w|] == w;
        assert |w| < |t| && t[|w|] == lit[0];
        MaximalRunIsRun(Word, t, w);
        assert t[n..][..|lit|] == lit;
      }
    }
    if n > 0 && StartsWith(t[n..], lit) then
      assert t[..n + |lit|] == t[..n] + lit by {
        assert t[n..][..|lit|] == lit;
      }
      Some(t[..n])
    else None
  }

  // ----- Line classes ---------------------------------------------------------------

  /** `re.match(r"(pub extern fn|pub const \w+ = \?\*const fn)", line)`. */
  predicate IsFnLine(s: string) {
    StartsWith(s, ExternPrefix)
    || (StartsWith(s, ConstPrefix) && MatchWordsThen(s[|ConstPrefix|..], FnPointerInfix).Some?)
  }

  /** `re.match(r"pub const t_(\w+) = struct__(\w+)", line)`. */
  predicate IsAliasLine(s: string) {
    StartsWith(s, AliasPrefix)
    && match MatchWordsThen(s[|AliasPrefix|..], AliasInfix)
       case None => false
       case Some(x) => Run(Word, s[|AliasPrefix| + |x| + |AliasInfix|..]) > 0
  }

  // ----- `(.*)\((?!\.)(.*)\)(.*)` ----------------------------------------------------

  /** A `(` at `i` that the negative lookahead `(?!\.)` accepts. */
  predicate OpensCall(s: string, i: nat)
    requires i < |s|
  {
    s[i] == '(' && (i + 1 == |s| || s[i + 1] != '.')
  }

  /** The last index before `j` holding `c`. */
  function LastBefore(s: string, c: char, j: nat): (r: Option<nat>)
    requires j <= |s|
    ensures r.Some? ==> r.value < j && s[r.value] == c
    ensures r.Some? ==> forall k :: r.value < k < j ==> s[k] != c
    ensures r.None? ==> forall k :: 0 <= k < j ==> s[k] != c
  {
    if j == 0 then None
    else if s[j - 1] == c then Some(j - 1)
    else LastBefore(s, c, j - 1)
  }

  /** The last index before `j` that opens a call. */
  function LastOpen(s: string, j: nat): (r: Option<nat>)
    requires j <= |s|
    ensures r.Some? ==> r.value < j && OpensCall(s, r.value)
    ensures r.Some? ==> forall k :: r.value < k < j ==> !OpensCall(s, k)
    ensures r.None? ==> forall k :: 0 <= k < j ==> !OpensCall(s, k)
  {
    if j == 0 then None
    else if OpensCall(s, j - 1) then Some(j - 1)
    else LastOpen(s, j - 1)
  }

  /** The three groups of a match: `s` is `a(b)c`, the `(` is not followed by `.`, `c`
      holds no `)` (the second greedy group ends at the last `)`), and no `(` in `b`
      opens a call (the first greedy group ends at the last one that does). */
  predicate CallShape(s: string, a: string, b: string, c: string) {
    s == a + "(" + b + ")" + c
    && (b == [] || b[0] != '.')
    && (forall k :: 0 <= k < |c| ==> c[k] != ')')
    && (forall k :: 0 <= k < |b| && b[k] == '(' ==> k + 1 < |b| && b[k + 1] == '.')
  }

  /** `re.match(r"(.*)\((?!\.)(.*)\)(.*)", line)` on a line without line breaks. */
  function SplitCall(s: string): Option<(string, string, string)> {
    match LastBefore(s, ')', |s|)
    case None => None
    case Some(j) =>
      match LastOpen(s, j)
      case None => None
      case Some(i) => Some((s[..i], s[i + 1..j], s[j + 1..]))
  }

  /** The split returns groups of the shape above. */
  lemma SplitCallShape(s: string)
    requires SplitCall(s).Some?
    ensures var (a, b, c) := SplitCall(s).value; CallShape(s, a, b, c)
  {
    var j := LastBefore(s, ')', |s|).value;
    var i := LastOpen(s, j).value;
    var (a, b, c) := (s[..i], s[i + 1..j], s[j + 1..]);
    assert s == a + "(" + b + ")" + c by {
      assert s == s[..i] + [s[i]] + s[i + 1..j] + [s[j]] + s[j + 1..];
    }
    forall k | 0 <= k < |b| && b[k] == '(' ensures k + 1 < |b| && b[k + 1] == '.' {
      assert s[i + 1 + k] == '(';
      assert !OpensCall(s, i + 1 + k);
    }
    forall k | 0 <= k < |c| ensures c[k] != ')' {
      assert s[j + 1 + k] == c[k];
    }
  }

  /** Any decomposition of the shape above is the one the split returns, so the shape
      determines the groups. */
  lemma CallShapeIsSplit(s: string, a: string, b: string, c: string)
    requires CallShape(s, a, b, c)
    ensures SplitCall(s) == Some((a, b, c))
  {
    CallLayout(a, b, c);
    LastCloseOfShape(s, a, b, c);
    LastOpenOfShape(s, a, b, c);
  }

  /** Where the groups of `a(b)c` sit. */
  lemma CallLayout(a: string, b: string, c: string)
    ensures var s := a + "(" + b + ")" + c;
            && |s| == |a| + |b| + |c| + 2
            && s[|a|] == '(' && s[|a| + 1 + |b|] == ')'
            && (forall k :: 0 <= k < |b| ==> s[|a| + 1 + k] == b[k])
            && (forall k :: 0 <= k < |c| ==> s[|a| + 2 + |b| + k] == c[k])
            && s[..|a|] == a && s[|a| + 1..|a| + 1 + |b|] == b && s[|a| + 2 + |b|..] == c
  {
  }

  /** The `)` after group 2 is the last one. */
  lemma LastCloseOfShape(s: string, a: string, b: string, c: string)
    requires CallShape(s, a, b, c)
    ensures LastBefore(s, ')', |s|) == Some(|a| + 1 + |b|)
  {
    var j := |a| + 1 + |b|;
    CallLayout(a, b, c);
    forall k | j < k < |s| ensures s[k] != ')' {
      assert s[k] == c[k - j - 1];
    }
  }

  /** The `(` before group 2 is the last one before that `)` that opens a call. */
  lemma LastOpenOfShape(s: string, a: string, b: string, c: string)
    requires CallShape(s, a, b, c)
    ensures |a| + 1 + |b| <= |s|
    ensures LastOpen(s, |a| + 1 + |b|) == Some(|a|)
  {
    var i := |a|;
    var j := |a| + 1 + |b|;
    CallLayout(a, b, c);
    assert OpensCall(s, i) by {
      if b != [] {
        assert s[i + 1] == b[0];
      }
    }
    forall k | i < k < j ensures !OpensCall(s, k) {
      var m := k - i - 1;
      if b[m] == '(' {
        assert s[k + 1] == b[m + 1];
      }
    }
  }

  /** The split fails exactly when no decomposition of the shape above exists. */
  lemma SplitCallNone(s: string)
    ensures SplitCall(s).None? <==> forall a, b, c :: !CallShape(s, a, b, c)
  {
    if SplitCall(s).Some? {
      SplitCallShape(s);
    } else {
      forall a, b, c ensures !CallShape(s, a, b, c) {
        if CallShape(s, a, b, c) {
          CallShapeIsSplit(s, a, b, c);
        }
      }
    }
  }

  // ----- The rewrite of one line ----------------------------------------------------

  /** The return type (group 3): types renamed, then `[*c]` pointers rewritten. */
  function RewriteReturn(tables: seq<Namespace>, t: string): string {
    Sub(ReturnPtr, Sub(TypeName(tables), t))
  }

  /** The parameters (group 2): types renamed, then parameter pointers, then double
      pointers rewritten. */
  function RewriteArgs(tables: seq<Namespace>, t: string): string {
    Sub(DoublePtr, Sub(ParamPtr, Sub(TypeName(tables), t)))
  }

  /** What the rewrite loop leaves in place of one line, names being resolved in
      `tables` (the script's own tables are `LookupOrder`). */
  function RewriteLine(tables: seq<Namespace>, s: string): string {
    if IsFnLine(s) then
      match SplitCall(s)
      case None => s
      case Some((a, b, c)) => a + "(" + RewriteArgs(tables, b) + ")" + RewriteReturn(tables, c)
    else if IsAliasLine(s) then Sub(AliasName(tables), s)
    else s
  }

  /** The loop over the translated lines, rewriting each one in place. */
  method RewriteLines(tables: seq<Namespace>, lines: array<string>)
    modifies lines
    ensures forall i :: 0 <= i < lines.Length ==> lines[i] == RewriteLine(tables, old(lines[i]))
  {
    ghost var f := s => RewriteLine(tables, s);
    ghost var orig := lines[..];
    var i := 0;
    while i < lines.Length
      invariant 0 <= i <= lines.Length
      invariant Mapped(f, orig[..i], lines[..i])
      invariant lines[i..] == orig[i..]
    {
      SliceHead(lines[..], orig, i);
      var r := RewriteLine(tables, lines[i]);
      ghost var done := lines[..i];
      MappedSnoc(f, orig[..i], done, orig[i]);
      lines[i] := r;
      SliceStep(lines[..], orig, done, i);
      i := i + 1;
    }
    forall k | 0 <= k < lines.Length ensures lines[k] == RewriteLine(tables, orig[k]) {
      SliceAll(lines[..], orig);
      MappedAt(f, orig, lines[..], k);
    }
  }

  // ----- What the rewrite does to a line ----------------------------------------------

  /** A function declaration of the shape `a(b)c` keeps `a` verbatim; only the parameters
      and the return type are rewritten. */
  lemma FnLineRewrite(tables: seq<Namespace>, s: string, a: string, b: string, c: string)
    requires IsFnLine(s) && CallShape(s, a, b, c)
    ensures RewriteLine(tables, s) ==
            a + "(" + RewriteArgs(tables, b) + ")" + RewriteReturn(tables, c)
  {
    CallShapeIsSplit(s, a, b, c);
  }

  /** A parameter that is itself a function pointer moves the split: group 1 runs up to
      that parameter's `fn (`, so the parameters before it, whatever they hold, are copied
      verbatim, and only the inner parameter list and what follows it are rewritten. */
  lemma InlineFnPointerSplit(tables: seq<Namespace>, head: string, params: string, inner: string, c: string)
    requires StartsWith(head, ExternPrefix)
    requires inner == [] || inner[0] != '.'
    requires forall k :: 0 <= k < |inner| && inner[k] == '(' ==> k + 1 < |inner| && inner[k + 1] == '.'
    requires forall k :: 0 <= k < |c| ==> c[k] != ')'
    ensures var a := head + "(" + params + "fn ";
            RewriteLine(tables, a + "(" + inner + ")" + c) ==
            a + "(" + RewriteArgs(tables, inner) + ")" + RewriteReturn(tables, c)
  {
    var a := head + "(" + params + "fn ";
    var s := a + "(" + inner + ")" + c;
    assert StartsWith(s, ExternPrefix) by {
      assert s == head + ("(" + params + "fn " + "(" + inner + ")" + c);
      assert s[..|ExternPrefix|] == head[..|ExternPrefix|];
    }
    FnLineRewrite(tables, s, a, inner, c);
  }

  /** A function declaration the split does not match is left as it is. */
  lemma FnLineWithoutCall(tables: seq<Namespace>, s: string)
    requires IsFnLine(s) && forall a, b, c :: !CallShape(s, a, b, c)
    ensures RewriteLine(tables, s) == s
  {
    SplitCallNone(s);
  }

  /** Lines that are neither function declarations nor struct aliases pass through. */
  lemma OtherLineUnchanged(tables: seq<Namespace>, s: string)
    requires !IsFnLine(s) && !IsAliasLine(s)
    ensures RewriteLine(tables, s) == s
  {
  }

  /** The prefixes of a function declaration hold no `(`, so they survive in group 1. */
  lemma NoOpenIn(p: string)
    requires p == ExternPrefix || p == ConstPrefix || p == FnPointerInfix
    ensures forall k :: 0 <= k < |p| ==> p[k] != '('
  {
  }

  /** A rewritten function declaration is still recognised as one. */
  lemma FnLineStaysFnLine(tables: seq<Namespace>, s: string)
    requires IsFnLine(s)
    ensures IsFnLine(RewriteLine(tables, s))
  {
    match SplitCall(s)
    case None =>
    case Some((a, b, c)) =>
      SplitCallShape(s);
      CallPrefix(a, b, c);
      CallPrefix(a, RewriteArgs(tables, b), RewriteReturn(tables, c));
      FnLineKeepsPrefix(s, a + "(" + RewriteArgs(tables, b) + ")" + RewriteReturn(tables, c), a);
  }

  /** `a(b)c` starts with `a`, followed by the `(`. */
  lemma CallPrefix(a: string, b: string, c: string)
    ensures StartsWith(a + "(" + b + ")" + c, a)
    ensures |a| < |a + "(" + b + ")" + c| && (a + "(" + b + ")" + c)[|a|] == '('
  {
    var s := a + "(" + b + ")" + c;
    assert s[..|a|] == a;
  }

  /** A function declaration whose group 1 is `a` stays one when everything after `a` is
      replaced: the prefixes the test looks at end before the `(`. */
  lemma FnLineKeepsPrefix(s: string, r: string, a: string)
    requires IsFnLine(s)
    requires |a| < |s| && s[|a|] == '(' && StartsWith(s, a) && StartsWith(r, a)
    ensures IsFnLine(r)
  {
    if StartsWith(s, ExternPrefix) {
      NoOpenIn(ExternPrefix);
      PrefixBeforeOpen(s, r, a, ExternPrefix);
    } else {
      var w := MatchWordsThen(s[|ConstPrefix|..], FnPointerInfix).value;
      var p := ConstPrefix + w + FnPointerInfix;
      FnPointerHead(s, w);
      PrefixBeforeOpen(s, r, a, p);
      FnPointerHead(r, w);
    }
  }

  /** A line starts with `pub const W = ?*const fn` exactly when it passes the second
      half of the declaration test with `W` as its word; that head holds no `(`. */
  lemma FnPointerHead(s: string, w: string)
    requires w != [] && forall i :: 0 <= i < |w| ==> IsWordChar(w[i])
    ensures StartsWith(s, ConstPrefix + w + FnPointerInfix) <==>
            StartsWith(s, ConstPrefix) && MatchWordsThen(s[|ConstPrefix|..], FnPointerInfix) == Some(w)
    ensures forall k :: 0 <= k < |ConstPrefix + w + FnPointerInfix| ==>
              (ConstPrefix + w + FnPointerInfix)[k] != '('
  {
    StartsWithConcat(s, ConstPrefix, w + FnPointerInfix);
    assert ConstPrefix + w + FnPointerInfix == ConstPrefix + (w + FnPointerInfix);
    NoOpenIn(ConstPrefix);
    NoOpenIn(FnPointerInfix);
  }

  /** A prefix of `s` without `(` ends before group 1 does, so a line `r` that starts with
      group 1 starts with it too. */
  lemma PrefixBeforeOpen(s: string, r: string, a: string, p: string)
    requires StartsWith(s, p) && forall k :: 0 <= k < |p| ==> p[k] != '('
    requires |a| < |s| && s[|a|] == '(' && StartsWith(s, a) && StartsWith(r, a)
    ensures StartsWith(r, p)
  {
    assert forall k :: 0 <= k < |p| ==> s[k] == p[k] by {
      forall k | 0 <= k < |p| ensures s[k] == p[k] {
        assert s[..|p|][k] == s[k];
      }
    }
    assert |a| >= |p|;
    assert forall k :: 0 <= k < |a| ==> r[k] == a[k] && s[k] == a[k] by {
      forall k | 0 <= k < |a| ensures r[k] == a[k] && s[k] == a[k] {
        assert r[..|a|][k] == r[k] && s[..|a|][k] == s[k];
      }
    }
    assert r[..|p|] == p;
  }

  // ----- Struct aliases ---------------------------------------------------------------

  /** Where no alias marker follows a non-word character, the alias substitution finds
      nothing. */
  lemma NoAliasMatch(tables: seq<Namespace>, u: string)
    requires u != []
    requires IsWordChar(u[0]) || |u| < 2 || (u[1] != 's' && u[1] != 'u')
    ensures Rewrite(AliasName(tables), u).None?
  {
    forall m, name ensures !MarkerMatch(AliasMarkers, u, m, name) {
      if m in AliasMarkers && !IsWordChar(u[0]) && |u| >= 2 {
        FirstCharMismatch(u[1..], m);
      }
    }
  }

  /** The text `pub const t_X =` of an alias line holds no match of the alias
      substitution, whatever follows its ` `. */
  lemma AliasHeadUnmatched(tables: seq<Namespace>, x: string, t: string)
    requires x != [] && forall i :: 0 <= i < |x| ==> IsWordChar(x[i])
    requires t != [] && t[0] == ' '
    ensures var p := AliasPrefix + x + " ="; forall i :: 0 <= i < |p| ==> Rewrite(AliasName(tables), (p + t)[i..]).None?
  {
    var p := AliasPrefix + x + " =";
    forall i | 0 <= i < |p| ensures Rewrite(AliasName(tables), (p + t)[i..]).None? {
      var u := (p + t)[i..];
      assert u[0] == p[i];
      if i < |AliasPrefix| {
        assert p[i] == AliasPrefix[i] && p[i + 1] == (AliasPrefix + x)[i + 1];
        assert u[1] == p[i + 1];
      } else if i < |AliasPrefix| + |x| {
        assert p[i] == x[i - |AliasPrefix|];
      } else if i == |AliasPrefix| + |x| {
        assert u[1] == p[i + 1] == '=';
      } else {
        assert u[1] == t[0];
      }
      NoAliasMatch(tables, u);
    }
  }

  /** The alias substitution on `pub const t_X = struct__Y...` leaves `pub const t_X = `
      as it is (the `t_` marker is not one of its alternatives) and replaces `struct__Y`
      by the resolved `Y`. */
  lemma AliasSub(tables: seq<Namespace>, x: string, y: string, rest: string)
    requires x != [] && forall i :: 0 <= i < |x| ==> IsWordChar(x[i])
    requires y != [] && forall i :: 0 <= i < |y| ==> IsWordChar(y[i])
    requires rest == [] || !IsWordChar(rest[0])
    ensures Sub(AliasName(tables), AliasPrefix + x + " =" + (" struct__" + y + rest)) ==
            AliasPrefix + x + " = " + ResolveIn(tables, y) + Sub(AliasName(tables), rest)
  {
    var t := " struct__" + y + rest;
    AliasSubHead(tables, x, t);
    AliasSubStruct(tables, y, rest);
    SpaceAfterEquals(AliasPrefix + x, ResolveIn(tables, y), Sub(AliasName(tables), rest));
  }

  /** Nothing in `pub const t_X =` is rewritten. */
  lemma AliasSubHead(tables: seq<Namespace>, x: string, t: string)
    requires x != [] && forall i :: 0 <= i < |x| ==> IsWordChar(x[i])
    requires t != [] && t[0] == ' '
    ensures Sub(AliasName(tables), AliasPrefix + x + " =" + t) ==
            AliasPrefix + x + " =" + Sub(AliasName(tables), t)
  {
    AliasHeadUnmatched(tables, x, t);
    SubUnmatched(AliasName(tables), AliasPrefix + x + " =", t);
  }

  /** ` struct__Y` becomes ` Y'` for the resolved `Y'`. */
  lemma AliasSubStruct(tables: seq<Namespace>, y: string, rest: string)
    requires y != [] && forall i :: 0 <= i < |y| ==> IsWordChar(y[i])
    requires rest == [] || !IsWordChar(rest[0])
    ensures Sub(AliasName(tables), " struct__" + y + rest) ==
            [' '] + ResolveIn(tables, y) + Sub(AliasName(tables), rest)
  {
    Literals();
    RenameMarkerAt(AliasName(tables), ' ', "struct__", y, rest);
  }

  lemma SpaceAfterEquals(h: string, r: string, z: string)
    ensures h + " =" + ([' '] + r + z) == h + " = " + r + z
  {
    Literals();
  }

  lemma Literals()
    ensures " struct__" == [' '] + "struct__"
    ensures " =" + [' '] == " = "
  {
  }

  /** Where each part of an alias line sits. */
  lemma AliasLayout(x: string, y: string, rest: string)
    ensures var s := AliasPrefix + x + AliasInfix + y + rest;
            && |s| == |AliasPrefix| + |x| + |AliasInfix| + |y| + |rest|
            && (forall i :: 0 <= i < |AliasPrefix| ==> s[i] == AliasPrefix[i])
            && (forall i :: 0 <= i < |x| ==> s[|AliasPrefix| + i] == x[i])
            && (forall i :: 0 <= i < |AliasInfix| ==> s[|AliasPrefix| + |x| + i] == AliasInfix[i])
            && s[|AliasPrefix| + |x| + |AliasInfix|..] == y + rest
  {
    var s := AliasPrefix + x + AliasInfix + y + rest;
    assert s == (AliasPrefix + x + AliasInfix) + (y + rest);
  }

  /** `pub const t_X = struct__Y...` is a struct alias. */
  lemma AliasLineIsAlias(x: string, y: string, rest: string)
    requires x != [] && forall i :: 0 <= i < |x| ==> IsWordChar(x[i])
    requires y != [] && forall i :: 0 <= i < |y| ==> IsWordChar(y[i])
    ensures IsAliasLine(AliasPrefix + x + AliasInfix + y + rest)
  {
    var s := AliasPrefix + x + AliasInfix + y + rest;
    AliasLayout(x, y, rest);
    assert StartsWith(s, AliasPrefix) by {
      assert s[..|AliasPrefix|] == AliasPrefix;
    }
    var u := s[|AliasPrefix|..];
    assert WordsThen(u, x, AliasInfix) by {
      assert u[..|x| + |AliasInfix|] == x + AliasInfix;
    }
    assert MatchWordsThen(u, AliasInfix) == Some(x);
    assert Run(Word, y + rest) > 0 by {
      assert (y + rest)[0] == y[0];
    }
  }

  /** Conversely, every alias line is cut that way: `t_X`, ` = struct__`, the word `Y`
      the pattern's second `\w+` ends on, and a rest that starts with no word character. */
  lemma AliasLineParts(s: string) returns (x: string, y: string, rest: string)
    requires IsAliasLine(s)
    ensures x != [] && forall i :: 0 <= i < |x| ==> IsWordChar(x[i])
    ensures y != [] && forall i :: 0 <= i < |y| ==> IsWordChar(y[i])
    ensures rest == [] || !IsWordChar(rest[0])
    ensures s == AliasPrefix + x + AliasInfix + y + rest
  {
    x := MatchWordsThen(s[|AliasPrefix|..], AliasInfix).value;
    var t := s[|AliasPrefix| + |x| + |AliasInfix|..];
    y, rest := WordRunParts(t);
    AliasJoin(s, x, y, rest);
  }

  /** A text cut at the end of its leading word run. */
  lemma WordRunParts(t: string) returns (y: string, rest: string)
    ensures |y| == Run(Word, t) && t == y + rest
    ensures forall i :: 0 <= i < |y| ==> IsWordChar(y[i])
    ensures rest == [] || !IsWordChar(rest[0])
  {
    var n := Run(Word, t);
    y, rest := t[..n], t[n..];
    assert forall i :: 0 <= i < |y| ==> InClass(Word, t[i]) && y[i] == t[i];
    if rest != [] {
      assert rest[0] == t[n];
    }
  }

  lemma AliasJoin(s: string, x: string, y: string, rest: string)
    requires StartsWith(s, AliasPrefix) && StartsWith(s[|AliasPrefix|..], x + AliasInfix)
    requires s[|AliasPrefix| + |x| + |AliasInfix|..] == y + rest
    ensures s == AliasPrefix + x + AliasInfix + y + rest
  {
    var u := s[|AliasPrefix|..];
    assert s == s[..|AliasPrefix|] + u;
    assert u == u[..|x| + |AliasInfix|] + u[|x| + |AliasInfix|..];
    assert u[|x| + |AliasInfix|..] == y + rest;
  }

  /** A word run of length `n` followed by text that differs from `lit` at offset `m`
      has no `\w+` match before `lit`. */
  lemma NoWordsThen(v: string, lit: string, n: nat, m: nat)
    requires lit != [] && !IsWordChar(lit[0])
    requires n + m < |v| && m < |lit|
    requires forall k :: 0 <= k < n ==> IsWordChar(v[k])
    requires !IsWordChar(v[n]) && v[n + m] != lit[m]
    ensures MatchWordsThen(v, lit) == None
  {
    assert Run(Word, v) == n by {
      assert forall k :: 0 <= k < n ==> InClass(Word, v[k]);
      assert !InClass(Word, v[n]);
    }
    if |lit| <= |v| - n {
      assert v[n..][..|lit|][m] == v[n + m];
    }
  }

  /** `pub const t_X = struct__Y...` is not a function declaration: the word after
      `pub const ` is followed by ` = s`, not by ` = ?`. */
  lemma AliasLineIsNotFn(x: string, y: string, rest: string)
    requires x != [] && forall i :: 0 <= i < |x| ==> IsWordChar(x[i])
    ensures !IsFnLine(AliasPrefix + x + AliasInfix + y + rest)
  {
    var s := AliasPrefix + x + AliasInfix + y + rest;
    AliasLayout(x, y, rest);
    assert s[4] == 'c';
    assert s[..|ExternPrefix|][4] == 'c';
    var v := s[|ConstPrefix|..];
    var n := 2 + |x|;
    assert v[0] == 't' && v[1] == '_';
    assert forall k :: 2 <= k < n ==> v[k] == x[k - 2];
    assert v[n] == ' ' && v[n + 3] == 's';
    NoWordsThen(v, FnPointerInfix, n, 3);
  }

  /** The alias line written as the prefix the substitution leaves alone and the text
      from the space before `struct__` on. */
  lemma AliasLineSplit(x: string, y: string, rest: string)
    ensures AliasPrefix + x + AliasInfix + y + rest ==
            AliasPrefix + x + " =" + (" struct__" + y + rest)
  {
    assert AliasInfix == " =" + " struct__";
  }

  /** An alias line `pub const t_X = struct__Y...` becomes `pub const t_X = Y'...`, where
      `Y'` is the resolved `Y`; `t_X` itself keeps its name. */
  lemma AliasLineRewrite(tables: seq<Namespace>, x: string, y: string, rest: string)
    requires x != [] && forall i :: 0 <= i < |x| ==> IsWordChar(x[i])
    requires y != [] && forall i :: 0 <= i < |y| ==> IsWordChar(y[i])
    requires rest == [] || !IsWordChar(rest[0])
    ensures RewriteLine(tables, AliasPrefix + x + AliasInfix + y + rest) ==
            AliasPrefix + x + " = " + ResolveIn(tables, y) + Sub(AliasName(tables), rest)
  {
    AliasLineIsAlias(x, y, rest);
    AliasLineIsNotFn(x, y, rest);
    AliasLineSplit(x, y, rest);
    AliasSub(tables, x, y, rest);
  }
}
