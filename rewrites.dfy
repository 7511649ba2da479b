/** The five patterns of the six `re.sub` calls of translate-c.py (`r_type` runs on both
    the parameter text and the return text), each pattern written out as a
    recogniser at the start of a text, and one left-to-right scanner that applies a
    pattern the way `re.sub` does: leftmost match first, matches never overlap, text
    between matches is copied. None of the patterns can match the empty string. */
module Rewrites {
  import opened Strings
  import opened Namespaces

  /** The alternatives of `(?:struct__|t_|union_)`, in order. */
  const TypeMarkers: seq<string> := ["struct__", "t_", "union_"]

  /** The alternatives of `(?:struct__|union_)` in the struct-alias substitution. */
  const AliasMarkers: seq<string> := ["struct__", "union_"]

  /** Parameter-name suffixes that denote a vector of values. */
  const VecSuffixes: seq<string> := ["argv", "av", "vec"]

  /** The patterns handed to `re.sub`. */
  datatype Rule =
    | TypeName(tables: seq<Namespace>)   // r_type: a marker after a non-word character
    | AliasName(tables: seq<Namespace>)  // the struct-alias substitution: struct__ and union_ only
    | ReturnPtr  // r_ret: `[*c]` pointer in a return type
    | ParamPtr   // r_param: `name: [*c]` or `name: ?*` pointer parameter
    | DoublePtr  // r_dblptr: `[*c][*c]` double pointer

  /** A match at the start of a text: how many characters it covers and what the
      replacement function returns for it. */
  datatype Hit = Hit(len: nat, text: string)

  // ----- Identifier markers -------------------------------------------------------

  /** `([^\w])(?:...)(\w+)` matches at the start of `s`, taking alternative `m` and
      capturing `name` as group 2. */
  predicate MarkerMatch(ms: seq<string>, s: string, m: string, name: string) {
    m in ms && |s| > 0 && !IsWordChar(s[0]) && StartsWith(s[1..], m)
    && MaximalRun(Word, s[1 + |m|..], name)
  }

  /** Alternatives are tried in order; the first one followed by a word run wins. */
  function MatchMarker(ms: seq<string>, s: string): (r: Option<(string, string)>)
    ensures r.Some? ==> MarkerMatch(ms, s, r.value.0, r.value.1)
    ensures r.None? ==> forall m, name :: !MarkerMatch(ms, s, m, name)
  {
    if ms == [] || |s| == 0 || IsWordChar(s[0]) then None
    else if StartsWith(s[1..], ms[0]) && Run(Word, s[1 + |ms[0]|..]) > 0 then
      Some((ms[0], s[1 + |ms[0]|..1 + |ms[0]| + Run(Word, s[1 + |ms[0]|..])]))
    else
      var r := MatchMarker(ms[1..], s);
      assert forall name :: !MarkerMatch(ms, s, ms[0], name) by {
        forall name ensures !MarkerMatch(ms, s, ms[0], name) {
          if StartsWith(s[1..], ms[0]) {
            MaximalRunIsRun(Word, s[1 + |ms[0]|..], name);
          }
        }
      }
      assert ms == [ms[0]] + ms[1..];
      assert forall m, name :: MarkerMatch(ms, s, m, name) ==>
        m == ms[0] || MarkerMatch(ms[1..], s, m, name);
      r
  }

  /** Markers that differ in their first character can never both match. */
  predicate DistinctHeads(ms: seq<string>) {
    (forall i :: 0 <= i < |ms| ==> ms[i] != [])
    && forall i, j :: 0 <= i < j < |ms| ==> ms[i][0] != ms[j][0]
  }

  /** With distinct first characters, a marker match is unique. */
  lemma MarkerMatchUnique(ms: seq<string>, s: string, m1: string, n1: string, m2: string, n2: string)
    requires DistinctHeads(ms)
    requires MarkerMatch(ms, s, m1, n1) && MarkerMatch(ms, s, m2, n2)
    ensures m1 == m2 && n1 == n2
  {
    var i :| 0 <= i < |ms| && ms[i] == m1;
    var j :| 0 <= j < |ms| && ms[j] == m2;
    assert s[1..][..|m1|][0] == m1[0] && s[1..][..|m2|][0] == m2[0];
    assert i == j;
    MaximalRunIsRun(Word, s[1 + |m1|..], n1);
    MaximalRunIsRun(Word, s[1 + |m1|..], n2);
  }

  lemma MarkersHaveDistinctHeads()
    ensures DistinctHeads(TypeMarkers) && DistinctHeads(AliasMarkers)
  {
  }

  /** `re_type`: the non-word character is kept and the marker and name are replaced by
      the name resolved through `tables`. */
  function RenameAt(ms: seq<string>, tables: seq<Namespace>, s: string): Option<Hit> {
    match MatchMarker(ms, s)
    case None => None
    case Some((m, name)) => Some(Hit(1 + |m| + |name|, [s[0]] + ResolveIn(tables, name)))
  }

  // ----- Pointer annotations ------------------------------------------------------

  function Qualifier(isConst: bool): string {
    if isConst then "const " else ""
  }

  /** `(const )?([\w\.]+)` matches at the start of `t` with the optional group taken or
      not, capturing `typ`. */
  predicate ConstTypeMatch(t: string, isConst: bool, typ: string) {
    StartsWith(t, Qualifier(isConst)) && MaximalRun(TypeText, t[|Qualifier(isConst)|..], typ)
  }

  /** The greedy `?` takes `const ` whenever a type can follow it, and otherwise falls
      back to matching without it. */
  function MatchConstType(t: string): (r: Option<(bool, string)>)
    ensures r.Some? ==> ConstTypeMatch(t, r.value.0, r.value.1)
    ensures r.Some? && !r.value.0 ==> forall typ :: !ConstTypeMatch(t, true, typ)
    ensures r.None? ==> forall c, typ :: !ConstTypeMatch(t, c, typ)
  {
    var withConst := StartsWith(t, "const ") && Run(TypeText, t[6..]) > 0;
    var bare := Run(TypeText, t);
    assert forall typ :: ConstTypeMatch(t, true, typ) ==> withConst by {
      forall typ | ConstTypeMatch(t, true, typ) ensures withConst {
        MaximalRunIsRun(TypeText, t[6..], typ);
      }
    }
    assert forall typ :: ConstTypeMatch(t, false, typ) ==> bare > 0 by {
      forall typ | ConstTypeMatch(t, false, typ) ensures bare > 0 {
        MaximalRunIsRun(TypeText, t, typ);
      }
    }
    if withConst then Some((true, t[6..6 + Run(TypeText, t[6..])]))
    else if bare > 0 then Some((false, t[..bare]))
    else None
  }

  /** `[*:0]` (zero-terminated) for a `u8` element, a single-item pointer otherwise. */
  function ReturnPointer(typ: string): string {
    if typ == "u8" then "[*:0]" else "*"
  }

  predicate IsVectorName(name: string) {
    exists v :: v in VecSuffixes && EndsWith(name, v)
  }

  /** A vector-like name gives a many-item pointer before the `u8` rule is considered. */
  function ParamPointer(name: string, typ: string): string {
    if IsVectorName(name) then "[*]" else ReturnPointer(typ)
  }

  /** `**` only for the literal `pd.Symbol`, a pointer to many-item pointers otherwise. */
  function DoublePointer(typ: string): string {
    if typ == "pd.Symbol" then "**" else "*[*]"
  }

  /** `tok` followed by `(const )?([\w\.]+)` at the start of `s`. */
  function PointerAt(tok: string, s: string): (r: Option<(bool, string)>)
    ensures r.Some? ==> StartsWith(s, tok) && ConstTypeMatch(s[|tok|..], r.value.0, r.value.1)
    ensures r.Some? && !r.value.0 ==> forall typ :: !ConstTypeMatch(s[|tok|..], true, typ)
    ensures r.None? ==> forall c, typ :: !(StartsWith(s, tok) && ConstTypeMatch(s[|tok|..], c, typ))
  {
    if StartsWith(s, tok) then MatchConstType(s[|tok|..]) else None
  }

  /** `r_ret` and `re_ret`. */
  function ReturnAt(s: string): Option<Hit> {
    match PointerAt("[*c]", s)
    case None => None
    case Some((c, typ)) =>
      Some(Hit(4 + |Qualifier(c)| + |typ|, ReturnPointer(typ) + Qualifier(c) + typ))
  }

  /** `r_dblptr` and `re_dblptr`. */
  function DoubleAt(s: string): Option<Hit> {
    match PointerAt("[*c][*c]", s)
    case None => None
    case Some((c, typ)) =>
      Some(Hit(8 + |Qualifier(c)| + |typ|, DoublePointer(typ) + Qualifier(c) + typ))
  }

  /** The pointer alternative `(?:\[\*c\]|\?\*)` of `r_param` at the start of `t`. */
  function ParamToken(t: string): (r: Option<string>)
    ensures r.Some? ==> r.value in ["[*c]", "?*"] && StartsWith(t, r.value)
    ensures r.None? ==> !StartsWith(t, "[*c]") && !StartsWith(t, "?*")
  {
    if StartsWith(t, "[*c]") then Some("[*c]")
    else if StartsWith(t, "?*") then Some("?*")
    else None
  }

  /** `r_param` and `re_param`: the name is the whole word at the start (a shorter
      `\w+` would be followed by a word character, not by `:`). */
  function ParamAt(s: string): Option<Hit> {
    var n := Run(Word, s);
    if n == 0 || !StartsWith(s[n..], ": ") then None
    else match ParamToken(s[n + 2..])
      case None => None
      case Some(tok) =>
        match PointerAt(tok, s[n + 2..])
        case None => None
        case Some((c, typ)) => Some(ParamHit(s[..n], tok, c, typ))
  }

  /** What `re_param` makes of a match: the name, `: `, the new pointer, the qualifier and
      the type. */
  function ParamHit(name: string, tok: string, isConst: bool, typ: string): Hit {
    Hit(|name| + 2 + |tok| + |Qualifier(isConst)| + |typ|,
        name + ": " + ParamPointer(name, typ) + Qualifier(isConst) + typ)
  }

  /** The match of `rule` at the start of `s`, if there is one. */
  function Rewrite(rule: Rule, s: string): (r: Option<Hit>)
    ensures r.Some? ==> 0 < r.value.len <= |s|
  {
    match rule
    case TypeName(tables) => RenameAt(TypeMarkers, tables, s)
    case AliasName(tables) => RenameAt(AliasMarkers, tables, s)
    case ReturnPtr => ReturnAt(s)
    case ParamPtr => ParamAt(s)
    case DoublePtr => DoubleAt(s)
  }

  /** A recogniser never matches the empty string and never runs past the end. */
  ghost predicate Advances(f: string -> Option<Hit>) {
    forall t :: f(t).Some? ==> 0 < f(t).value.len <= |t|
  }

  /** `re.sub(pattern, fn, s)`, for `f` the recogniser of `pattern` with `fn` applied. */
  function Scan(f: string -> Option<Hit>, s: string): string
    requires Advances(f)
    decreases |s|
  {
    if s == [] then []
    else match f(s)
      case Some(h) => h.text + Scan(f, s[h.len..])
      case None => [s[0]] + Scan(f, s[1..])
  }

  function Recogniser(rule: Rule): (f: string -> Option<Hit>)
    ensures Advances(f)
    ensures forall t :: f(t) == Rewrite(rule, t)
  {
    t => Rewrite(rule, t)
  }

  /** The substitution of one rule over a whole text. */
  function Sub(rule: Rule, s: string): string {
    Scan(Recogniser(rule), s)
  }

  // ----- What a substitution does --------------------------------------------------

  /** One step of the scan at a match. */
  lemma ScanHit(f: string -> Option<Hit>, s: string, h: Hit)
    requires Advances(f) && f(s) == Some(h)
    ensures Scan(f, s) == h.text + Scan(f, s[h.len..])
  {
  }

  /** One step of the scan where no match starts. */
  lemma ScanMiss(f: string -> Option<Hit>, s: string)
    requires Advances(f) && s != [] && f(s).None?
    ensures Scan(f, s) == [s[0]] + Scan(f, s[1..])
  {
  }

  /** Text in which no match starts is copied unchanged, and scanning resumes after it
      exactly as it would on the remainder alone. */
  lemma {:induction false} ScanUnmatched(f: string -> Option<Hit>, p: string, t: string)
    requires Advances(f)
    requires forall i :: 0 <= i < |p| ==> f((p + t)[i..]).None?
    ensures Scan(f, p + t) == p + Scan(f, t)
    decreases |p|
  {
    var u := p + t;
    assert u[0..] == u && u[0..|p|] == p && u[|p|..] == t;
    ScanFrom(f, u, 0, |p|);
  }

  /** The same, counted on one text: from `k` up to `n` no match starts, so the scan
      from `k` copies `u[k..n]` and goes on from `n`. */
  lemma {:induction false} ScanFrom(f: string -> Option<Hit>, u: string, k: nat, n: nat)
    requires Advances(f) && k <= n <= |u|
    requires forall i :: k <= i < n ==> f(u[i..]).None?
    ensures Scan(f, u[k..]) == u[k..n] + Scan(f, u[n..])
    decreases n - k
  {
    if k < n {
      ScanMiss(f, u[k..]);
      ConsSlice(u, k, n, Scan(f, u[n..]));
      ScanFrom(f, u, k + 1, n);
    }
  }

  lemma ConsSlice(u: string, k: nat, n: nat, r: string)
    requires k < n <= |u|
    ensures u[k..][0] == u[k] && u[k..][1..] == u[k + 1..]
    ensures [u[k]] + (u[k + 1..n] + r) == u[k..n] + r
  {
    assert [u[k]] + u[k + 1..n] == u[k..n];
  }

  /** A rule's substitution at a match of the rule. */
  lemma SubHit(rule: Rule, s: string, h: Hit)
    requires Rewrite(rule, s) == Some(h)
    ensures Sub(rule, s) == h.text + Sub(rule, s[h.len..])
  {
    ScanHit(Recogniser(rule), s, h);
  }

  /** A rule's substitution at a match that covers exactly `p`. */
  lemma SubAfter(rule: Rule, p: string, rest: string, h: Hit)
    requires Rewrite(rule, p + rest) == Some(h) && h.len == |p|
    ensures Sub(rule, p + rest) == h.text + Sub(rule, rest)
  {
    SubHit(rule, p + rest, h);
    assert (p + rest)[|p|..] == rest;
  }

  /** Text in which no match of the rule starts is copied unchanged. */
  lemma SubUnmatched(rule: Rule, p: string, t: string)
    requires forall i :: 0 <= i < |p| ==> Rewrite(rule, (p + t)[i..]).None?
    ensures Sub(rule, p + t) == p + Sub(rule, t)
  {
    ScanUnmatched(Recogniser(rule), p, t);
  }

  /** A text in which no match starts comes out unchanged. */
  lemma NoMatchNoChange(rule: Rule, s: string)
    requires forall i :: 0 <= i < |s| ==> Rewrite(rule, s[i..]).None?
    ensures Sub(rule, s) == s
  {
    assert s + [] == s;
    SubUnmatched(rule, s, []);
  }

  function Markers(rule: Rule): seq<string>
    requires rule.TypeName? || rule.AliasName?
  {
    if rule.TypeName? then TypeMarkers else AliasMarkers
  }

  /** The marker recogniser on a non-word character, a marker and a whole word. */
  lemma RenameAtIs(ms: seq<string>, tables: seq<Namespace>, c: char, m: string, name: string, rest: string)
    requires DistinctHeads(ms)
    requires !IsWordChar(c) && m in ms
    requires name != [] && forall i :: 0 <= i < |name| ==> IsWordChar(name[i])
    requires rest == [] || !IsWordChar(rest[0])
    ensures RenameAt(ms, tables, [c] + m + name + rest) ==
            Some(Hit(1 + |m| + |name|, [c] + ResolveIn(tables, name)))
  {
    var s := [c] + m + name + rest;
    assert s[1..] == m + name + rest;
    assert s[1 + |m|..] == name + rest;
    assert (name + rest)[..|name|] == name;
    assert MarkerMatch(ms, s, m, name);
    var r := MatchMarker(ms, s);
    MarkerMatchUnique(ms, s, m, name, r.value.0, r.value.1);
  }

  /** The renamer at a marker: the preceding non-word character is kept, marker and name
      become the resolved name, and scanning goes on after the name. */
  lemma RenameMarkerAt(rule: Rule, c: char, m: string, name: string, rest: string)
    requires rule.TypeName? || rule.AliasName?
    requires !IsWordChar(c) && m in Markers(rule)
    requires name != [] && forall i :: 0 <= i < |name| ==> IsWordChar(name[i])
    requires rest == [] || !IsWordChar(rest[0])
    ensures Sub(rule, [c] + m + name + rest) ==
            [c] + ResolveIn(rule.tables, name) + Sub(rule, rest)
  {
    MarkersHaveDistinctHeads();
    RenameAtIs(Markers(rule), rule.tables, c, m, name, rest);
    var h := Hit(1 + |m| + |name|, [c] + ResolveIn(rule.tables, name));
    SubAfter(rule, [c] + m + name, rest, h);
  }

  /** `re_type` with the full lookup order: the preceding non-word character is kept and
      marker and name become `Resolve(name)`; with `Namespaces.ResolveEntry` this gives, for
      every table entry, its canonical name (as `*const Name` for the function-pointer
      tables), and with `Namespaces.ResolveUnknown` an unknown name unchanged. */
  lemma RenameType(c: char, m: string, name: string, rest: string)
    requires !IsWordChar(c) && m in TypeMarkers
    requires name != [] && forall i :: 0 <= i < |name| ==> IsWordChar(name[i])
    requires rest == [] || !IsWordChar(rest[0])
    ensures Sub(TypeName(LookupOrder), [c] + m + name + rest) ==
            [c] + Resolve(name) + Sub(TypeName(LookupOrder), rest)
  {
    RenameMarkerAt(TypeName(LookupOrder), c, m, name, rest);
  }

  /** A word that cannot be the `const` of the optional group leaves `(const )?` empty. */
  lemma NoConstPrefix(typ: string, rest: string)
    requires typ != [] && forall i :: 0 <= i < |typ| ==> IsTypeChar(typ[i])
    requires typ != "const"
    requires rest == [] || !IsTypeChar(rest[0])
    ensures !StartsWith(typ + rest, "const ")
  {
    var t := typ + rest;
    var q := "const ";
    if |t| >= 6 {
      if |typ| >= 6 {
        assert t[5] == typ[5] && q[5] == ' ';
        assert t[..6][5] != q[5];
      } else if |typ| == 5 {
        var j :| 0 <= j < 5 && typ[j] != q[j];
        assert t[..6][j] == typ[j];
      } else {
        assert t[|typ|] == rest[0] && IsTypeChar(q[|typ|]);
        assert t[..6][|typ|] != q[|typ|];
      }
    }
  }

  /** `(const )?([\w\.]+)` on `const ` + a type takes the qualifier. */
  lemma MatchConstTypeQualified(typ: string, rest: string)
    requires typ != [] && forall i :: 0 <= i < |typ| ==> IsTypeChar(typ[i])
    requires rest == [] || !IsTypeChar(rest[0])
    ensures MatchConstType("const " + typ + rest) == Some((true, typ))
  {
    var t := "const " + typ + rest;
    assert t[..6] == "const ";
    assert t[6..] == typ + rest;
    RunOf(TypeText, typ, rest);
    assert t[6..6 + |typ|] == typ;
  }

  /** `(const )?([\w\.]+)` on a bare type other than `const` leaves the group empty. */
  lemma MatchConstTypeBare(typ: string, rest: string)
    requires typ != [] && forall i :: 0 <= i < |typ| ==> IsTypeChar(typ[i])
    requires rest == [] || !IsTypeChar(rest[0])
    requires typ != "const"
    ensures MatchConstType(typ + rest) == Some((false, typ))
  {
    var t := typ + rest;
    NoConstPrefix(typ, rest);
    RunOf(TypeText, typ, rest);
    assert t[..|typ|] == typ;
  }

  /** Shared by the three pointer rules: `tok` + `(const )?` + type at the start of the text
      is matched with exactly this qualifier and this type. */
  lemma PointerAtIs(tok: string, c: bool, typ: string, rest: string)
    requires typ != [] && forall i :: 0 <= i < |typ| ==> IsTypeChar(typ[i])
    requires rest == [] || !IsTypeChar(rest[0])
    requires !c ==> typ != "const"
    ensures PointerAt(tok, tok + Qualifier(c) + typ + rest) == Some((c, typ))
  {
    var s := tok + Qualifier(c) + typ + rest;
    assert s[..|tok|] == tok;
    assert s[|tok|..] == Qualifier(c) + typ + rest;
    if c {
      MatchConstTypeQualified(typ, rest);
    } else {
      assert Qualifier(c) + typ + rest == typ + rest;
      MatchConstTypeBare(typ, rest);
    }
  }

  /** The `r_ret` recogniser on `[*c]`, a qualifier and a whole type. */
  lemma ReturnAtIs(c: bool, typ: string, rest: string)
    requires typ != [] && forall i :: 0 <= i < |typ| ==> IsTypeChar(typ[i])
    requires rest == [] || !IsTypeChar(rest[0])
    requires !c ==> typ != "const"
    ensures ReturnAt("[*c]" + Qualifier(c) + typ + rest) ==
            Some(Hit(4 + |Qualifier(c)| + |typ|, ReturnPointer(typ) + Qualifier(c) + typ))
  {
    PointerAtIs("[*c]", c, typ, rest);
  }

  /** `re_ret`: `[*c]` becomes `[*:0]` exactly for `u8` and `*` otherwise; the qualifier and
      the type text are kept in order. */
  lemma ReturnRewriteAt(c: bool, typ: string, rest: string)
    requires typ != [] && forall i :: 0 <= i < |typ| ==> IsTypeChar(typ[i])
    requires rest == [] || !IsTypeChar(rest[0])
    requires !c ==> typ != "const"
    ensures Sub(ReturnPtr, "[*c]" + Qualifier(c) + typ + rest) ==
            (if typ == "u8" then "[*:0]" else "*") + Qualifier(c) + typ + Sub(ReturnPtr, rest)
  {
    var h := Hit(4 + |Qualifier(c)| + |typ|, ReturnPointer(typ) + Qualifier(c) + typ);
    ReturnAtIs(c, typ, rest);
    SubAfter(ReturnPtr, "[*c]" + Qualifier(c) + typ, rest, h);
  }

  /** The `r_dblptr` recogniser on `[*c][*c]`, a qualifier and a whole type. */
  lemma DoubleAtIs(c: bool, typ: string, rest: string)
    requires typ != [] && forall i :: 0 <= i < |typ| ==> IsTypeChar(typ[i])
    requires rest == [] || !IsTypeChar(rest[0])
    requires !c ==> typ != "const"
    ensures DoubleAt("[*c][*c]" + Qualifier(c) + typ + rest) ==
            Some(Hit(8 + |Qualifier(c)| + |typ|, DoublePointer(typ) + Qualifier(c) + typ))
  {
    PointerAtIs("[*c][*c]", c, typ, rest);
  }

  /** `re_dblptr`: `[*c][*c]` becomes `**` exactly when the type text is `pd.Symbol`, and
      `*[*]` otherwise; the qualifier and the type text are kept in order. */
  lemma DoubleRewriteAt(c: bool, typ: string, rest: string)
    requires typ != [] && forall i :: 0 <= i < |typ| ==> IsTypeChar(typ[i])
    requires rest == [] || !IsTypeChar(rest[0])
    requires !c ==> typ != "const"
    ensures Sub(DoublePtr, "[*c][*c]" + Qualifier(c) + typ + rest) ==
            (if typ == "pd.Symbol" then "**" else "*[*]") + Qualifier(c) + typ
            + Sub(DoublePtr, rest)
  {
    var h := Hit(8 + |Qualifier(c)| + |typ|, DoublePointer(typ) + Qualifier(c) + typ);
    DoubleAtIs(c, typ, rest);
    SubAfter(DoublePtr, "[*c][*c]" + Qualifier(c) + typ, rest, h);
  }

  /** The `r_param` recogniser on a whole word, `: ` and a text `t` on which the pointer
      token and type are matched. */
  lemma ParamAtIs(name: string, t: string, tok: string, c: bool, typ: string)
    requires name != [] && forall i :: 0 <= i < |name| ==> IsWordChar(name[i])
    requires tok == "[*c]" || tok == "?*"
    requires PointerAt(tok, t) == Some((c, typ))
    ensures ParamAt(name + ": " + t) == Some(ParamHit(name, tok, c, typ))
  {
    var s := name + (": " + t);
    var n := |name|;
    assert name + ": " + t == s;
    RunOf(Word, name, ": " + t);
    assert s[..n] == name && s[n..] == ": " + t;
    assert s[n..][..2] == ": ";
    assert s[n + 2..] == t;
    ParamTokenIs(tok, t);
  }

  lemma ParamTokenIs(tok: string, t: string)
    requires tok == "[*c]" || tok == "?*"
    requires StartsWith(t, tok)
    ensures ParamToken(t) == Some(tok)
  {
    if tok == "?*" {
      FirstCharMismatch(t, "[*c]");
    }
  }

  /** `re_param`: `name: [*c]` and `name: ?*` both become `name: ` + `ParamPointer(name,
      typ)`; qualifier and type are kept, so no `?*` is left. */
  lemma ParamRewriteAt(name: string, tok: string, c: bool, typ: string, rest: string)
    requires name != [] && forall i :: 0 <= i < |name| ==> IsWordChar(name[i])
    requires tok == "[*c]" || tok == "?*"
    requires typ != [] && forall i :: 0 <= i < |typ| ==> IsTypeChar(typ[i])
    requires rest == [] || !IsTypeChar(rest[0])
    requires !c ==> typ != "const"
    ensures Sub(ParamPtr, name + ": " + tok + Qualifier(c) + typ + rest) ==
            name + ": " + ParamPointer(name, typ) + Qualifier(c) + typ + Sub(ParamPtr, rest)
  {
    ParamRewriteHit(name, tok, c, typ, rest);
    SubAfter(ParamPtr, name + ": " + tok + Qualifier(c) + typ, rest, ParamHit(name, tok, c, typ));
  }

  /** The match `re_param` sees at the start of such a parameter. */
  lemma ParamRewriteHit(name: string, tok: string, c: bool, typ: string, rest: string)
    requires name != [] && forall i :: 0 <= i < |name| ==> IsWordChar(name[i])
    requires tok == "[*c]" || tok == "?*"
    requires typ != [] && forall i :: 0 <= i < |typ| ==> IsTypeChar(typ[i])
    requires rest == [] || !IsTypeChar(rest[0])
    requires !c ==> typ != "const"
    ensures Rewrite(ParamPtr, name + ": " + tok + Qualifier(c) + typ + rest) ==
            Some(ParamHit(name, tok, c, typ))
    ensures ParamHit(name, tok, c, typ).len == |name + ": " + tok + Qualifier(c) + typ|
  {
    var t := tok + Qualifier(c) + typ + rest;
    PointerAtIs(tok, c, typ, rest);
    ParamAtIs(name, t, tok, c, typ);
    var head := name + ": ";
    Regroup(head, tok, Qualifier(c));
    Regroup(head, tok + Qualifier(c), typ);
    Regroup(head, tok + Qualifier(c) + typ, rest);
  }

  /** The pointer `re_param` writes: `[*]` for a name ending in `argv`, `av` or `vec`
      whatever the type, else `[*:0]` exactly for `u8`, else `*`. */
  lemma ParamPointerCases(name: string, typ: string)
    ensures ParamPointer(name, typ) == "[*]" <==>
            EndsWith(name, "argv") || EndsWith(name, "av") || EndsWith(name, "vec")
    ensures !IsVectorName(name) ==> ParamPointer(name, typ) == (if typ == "u8" then "[*:0]" else "*")
  {
    if EndsWith(name, "argv") {
      assert "argv" in VecSuffixes;
    } else if EndsWith(name, "av") {
      assert "av" in VecSuffixes;
    } else if EndsWith(name, "vec") {
      assert "vec" in VecSuffixes;
    }
  }

  /** `r_param` needs `name: ` in front of the pointer, so a parameter list without a `:`
      (unnamed parameters, as in `foo([*c]Pd, [*c]const u8)`) keeps every `[*c]` and `?*`. */
  lemma UnnamedParamsKept(s: string)
    requires ':' !in s
    ensures Sub(ParamPtr, s) == s
  {
    forall i | 0 <= i < |s| ensures Rewrite(ParamPtr, s[i..]).None? {
      NoColonNoParam(s[i..]);
    }
    NoMatchNoChange(ParamPtr, s);
  }

  lemma NoColonNoParam(t: string)
    requires ':' !in t
    ensures ParamAt(t).None?
  {
    var n := Run(Word, t);
    if n < |t| {
      assert t[n..][0] == t[n] && t[n] in t;
    }
    FirstCharMismatch(t[n..], ": ");
  }

  /** The unnamed parameters of `pub extern fn foo([*c]struct__pd, [*c]const u8)`, once
      renamed, pass the parameter rule unchanged. */
  lemma UnnamedParamsExample()
    ensures Sub(ParamPtr, "[*c]Pd, [*c]const u8") == "[*c]Pd, [*c]const u8"
  {
    UnnamedParamsKept("[*c]Pd, [*c]const u8");
  }

  /** The renamer never writes `pd.Symbol`: a double pointer to the renamed `symbol`
      gets `*[*]`, not `**`. */
  lemma RenamedSymbolDoublePointer(c: bool, rest: string)
    requires rest == [] || !IsTypeChar(rest[0])
    ensures Sub(DoublePtr, "[*c][*c]" + Qualifier(c) + Resolve("symbol") + rest) ==
            "*[*]" + Qualifier(c) + "Symbol" + Sub(DoublePtr, rest)
  {
    ResolveSymbol();
    SymbolDoublePointer(c, rest);
  }

  lemma SymbolDoublePointer(c: bool, rest: string)
    requires rest == [] || !IsTypeChar(rest[0])
    ensures Sub(DoublePtr, "[*c][*c]" + Qualifier(c) + "Symbol" + rest) ==
            "*[*]" + Qualifier(c) + "Symbol" + Sub(DoublePtr, rest)
  {
    var typ := "Symbol";
    assert forall i :: 0 <= i < |typ| ==> IsTypeChar(typ[i]);
    DoubleRewriteAt(c, typ, rest);
  }
}
