/** Renaming twice. The type renamer of translate-c.py is not idempotent: an unknown name
    that itself starts with a marker loses that marker on a second pass. It is idempotent
    on every text in which each captured name is either held by a table or starts with
    no marker. */
module Renaming {
  import opened Strings
  import opened Namespaces
  import opened Rewrites

  /** `u` starts with marker `m` and a word character follows it: the part of a marker
      match after the non-word character. */
  predicate MarkerThenWord(u: string, m: string) {
    StartsWith(u, m) && |m| < |u| && IsWordChar(u[|m|])
  }

  /** No match of the type renamer starts anywhere in `u`. */
  predicate Settled(u: string) {
    forall i :: 0 <= i < |u| ==> MatchMarker(TypeMarkers, u[i..]).None?
  }

  /** No marker starts `name`. */
  predicate Unmarked(name: string) {
    forall m :: m in TypeMarkers ==> !StartsWith(name, m)
  }

  predicate AllWord(w: string) {
    forall i :: 0 <= i < |w| ==> IsWordChar(w[i])
  }

  /** A non-empty identifier that no marker starts. */
  predicate PlainWord(w: string) {
    w != [] && AllWord(w) && Unmarked(w)
  }

  /** What the renamer can write for a name: a plain identifier, or one behind
      `*const `. */
  predicate Emitted(r: string) {
    PlainWord(r) || (|r| > 7 && r[..7] == "*const " && PlainWord(r[7..]))
  }

  predicate KnownIn(tables: seq<Namespace>, name: string) {
    exists j :: 0 <= j < |tables| && HasKey(tables[j].entries, name)
  }

  /** Every canonical name of every table is a plain identifier. */
  predicate ValuesPlain(tables: seq<Namespace>) {
    forall j, a :: 0 <= j < |tables| && 0 <= a < |tables[j].entries| ==>
      PlainWord(tables[j].entries[a].1)
  }

  /** The names the renamer captures in `s`, left to right. */
  function CapturedNames(s: string): seq<string>
    decreases |s|
  {
    if s == [] then []
    else match MatchMarker(TypeMarkers, s)
      case Some((m, name)) => [name] + CapturedNames(s[1 + |m| + |name|..])
      case None => CapturedNames(s[1..])
  }

  // ----- The counterexample -----------------------------------------------------------

  /** ` struct__t_x` becomes ` t_x` (the name `t_x` is in no table), and a second pass
      strips the `t_` as well. */
  lemma RenameTwiceDiffers()
    ensures Sub(TypeName(LookupOrder), Sub(TypeName(LookupOrder), " struct__t_x")) !=
            Sub(TypeName(LookupOrder), " struct__t_x")
  {
    UnknownName("t_x");
    UnknownName("x");
    RenameStructIn(LookupOrder);
    RenameTIn(LookupOrder);
  }

  /** The first pass, for any tables that do not hold `t_x`. */
  lemma RenameStructIn(tables: seq<Namespace>)
    requires ResolveIn(tables, "t_x") == "t_x"
    ensures Sub(TypeName(tables), " struct__t_x") == " t_x"
  {
    CounterexampleTexts();
    RenameUnknownAt(tables, "struct__", "t_x");
  }

  /** The second pass, for any tables that do not hold `x`. */
  lemma RenameTIn(tables: seq<Namespace>)
    requires ResolveIn(tables, "x") == "x"
    ensures Sub(TypeName(tables), " t_x") == " x"
  {
    CounterexampleTexts();
    RenameUnknownAt(tables, "t_", "x");
  }

  /** The two texts, cut into a space, a marker and a name; and the two results. */
  lemma CounterexampleTexts()
    ensures " struct__t_x" == [' '] + "struct__" + "t_x" && " t_x" == [' '] + "t_" + "x"
    ensures " t_x" == [' '] + "t_x" && " x" == [' '] + "x"
    ensures "struct__" in TypeMarkers && "t_" in TypeMarkers
    ensures AllWord("t_x") && AllWord("x")
  {
  }

  /** A marker and a name that resolves to itself, after a space, lose the marker. */
  lemma RenameUnknownAt(tables: seq<Namespace>, m: string, name: string)
    requires m in TypeMarkers && name != [] && AllWord(name)
    requires ResolveIn(tables, name) == name
    ensures Sub(TypeName(tables), [' '] + m + name) == [' '] + name
  {
    assert Sub(TypeName(tables), []) == [];
    assert [' '] + m + name + [] == [' '] + m + name;
    RenameMarkerAt(TypeName(tables), ' ', m, name, []);
  }

  /** Neither `t_x` nor `x` is a key: every key is longer than one character and no key
      starts with `t_`. */
  lemma UnknownName(name: string)
    requires name == "t_x" || name == "x"
    ensures Resolve(name) == name
  {
    forall k | 0 <= k < |LookupOrder| ensures !HasKey(LookupOrder[k].entries, name) {
      if HasKey(LookupOrder[k].entries, name) {
        var a := HasKeyAt(LookupOrder[k].entries, name);
        KeyIsNot(k, a, name);
      }
    }
    ResolveUnknown(name);
  }

  lemma KeyIsNot(k: nat, a: nat, name: string)
    requires k < |LookupOrder| && a < |LookupOrder[k].entries|
    requires name == "t_x" || name == "x"
    ensures LookupOrder[k].entries[a].0 != name
  {
    var key := LookupOrder[k].entries[a].0;
    if name == "t_x" && |key| == 3 {
      assert key[1] != '_';
    }
  }

  // ----- The idempotence that holds ---------------------------------------------------

  /** When every name the renamer captures is held by a table or starts with no marker,
      a second pass of the renamer changes nothing. */
  lemma RenameIdempotent(tables: seq<Namespace>, s: string)
    requires ValuesPlain(tables)
    requires forall name :: name in CapturedNames(s) ==> KnownIn(tables, name) || Unmarked(name)
    ensures Sub(TypeName(tables), Sub(TypeName(tables), s)) == Sub(TypeName(tables), s)
  {
    var o := Sub(TypeName(tables), s);
    RenameSettles(tables, s);
    forall i | 0 <= i < |o| ensures Rewrite(TypeName(tables), o[i..]).None? {
      assert MatchMarker(TypeMarkers, o[i..]).None?;
    }
    NoMatchNoChange(TypeName(tables), o);
  }

  /** The same with the script's own tables. */
  lemma RenameIdempotentScript(s: string)
    requires forall name :: name in CapturedNames(s) ==> Known(name) || Unmarked(name)
    ensures Sub(TypeName(LookupOrder), Sub(TypeName(LookupOrder), s)) ==
            Sub(TypeName(LookupOrder), s)
  {
    ScriptValuesPlain();
    RenameIdempotent(LookupOrder, s);
  }

  /** The renamer's output holds no match, and begins with the same word run as its
      input (so with the same character). */
  lemma {:induction false} RenameSettles(tables: seq<Namespace>, s: string)
    requires ValuesPlain(tables)
    requires forall name :: name in CapturedNames(s) ==> KnownIn(tables, name) || Unmarked(name)
    ensures var o := Sub(TypeName(tables), s);
            Settled(o) && SameLead(o, s) && (s != [] ==> o != [] && o[0] == s[0])
    decreases |s|
  {
    if s == [] {
      assert Sub(TypeName(tables), s) == [];
    } else {
      match MatchMarker(TypeMarkers, s)
      case Some((m, name)) =>
        NamesAfterHit(tables, s, m, name);
        RenameSettles(tables, s[1 + |m| + |name|..]);
        SettlesAtHit(tables, s, m, name);
      case None =>
        NamesAfterMiss(tables, s);
        RenameSettles(tables, s[1..]);
        SettlesAtMiss(tables, s);
    }
  }

  /** The condition on captured names, passed on past a match. */
  lemma NamesAfterHit(tables: seq<Namespace>, s: string, m: string, name: string)
    requires MatchMarker(TypeMarkers, s) == Some((m, name))
    requires forall x :: x in CapturedNames(s) ==> KnownIn(tables, x) || Unmarked(x)
    ensures 1 + |m| + |name| <= |s| && (KnownIn(tables, name) || Unmarked(name))
    ensures forall x :: x in CapturedNames(s[1 + |m| + |name|..]) ==> KnownIn(tables, x) || Unmarked(x)
  {
    CapturedAtHit(s, m, name);
  }

  lemma CapturedAtHit(s: string, m: string, name: string)
    requires s != [] && MatchMarker(TypeMarkers, s) == Some((m, name))
    ensures CapturedNames(s) == [name] + CapturedNames(s[1 + |m| + |name|..])
  {
  }

  /** The condition on captured names, passed on past a character where no match starts. */
  lemma NamesAfterMiss(tables: seq<Namespace>, s: string)
    requires s != [] && MatchMarker(TypeMarkers, s).None?
    requires forall x :: x in CapturedNames(s) ==> KnownIn(tables, x) || Unmarked(x)
    ensures forall x :: x in CapturedNames(s[1..]) ==> KnownIn(tables, x) || Unmarked(x)
  {
    assert CapturedNames(s) == CapturedNames(s[1..]);
  }

  /** The step at a match: the non-word character, the resolved name, then the renamed
      rest. */
  lemma SettlesAtHit(tables: seq<Namespace>, s: string, m: string, name: string)
    requires ValuesPlain(tables)
    requires MatchMarker(TypeMarkers, s) == Some((m, name))
    requires KnownIn(tables, name) || Unmarked(name)
    requires var rest := s[1 + |m| + |name|..];
             var tail := Sub(TypeName(tables), rest);
             Settled(tail) && (rest != [] ==> tail != [] && tail[0] == rest[0])
    ensures var o := Sub(TypeName(tables), s);
            Settled(o) && SameLead(o, s) && o != [] && o[0] == s[0]
  {
    var rule := TypeName(tables);
    var n := 1 + |m| + |name|;
    var r := ResolveIn(tables, name);
    var h := Hit(n, [s[0]] + r);
    assert Rewrite(rule, s) == Some(h);
    SubHit(rule, s, h);
    var tail := Sub(rule, s[n..]);
    HitEnds(s, m, name);
    ResolveEmitted(tables, name);
    SettledEmission(s[0], r, tail);
    assert Sub(rule, s) == [s[0]] + r + tail;
    LeadOfNonWord(Sub(rule, s), s);
  }

  /** The step where no match starts: the first character is copied. */
  lemma SettlesAtMiss(tables: seq<Namespace>, s: string)
    requires s != [] && MatchMarker(TypeMarkers, s).None?
    requires var tail := Sub(TypeName(tables), s[1..]);
             Settled(tail) && SameLead(tail, s[1..]) && (|s| > 1 ==> tail != [] && tail[0] == s[1])
    ensures var o := Sub(TypeName(tables), s);
            Settled(o) && SameLead(o, s) && o != [] && o[0] == s[0]
  {
    var rule := TypeName(tables);
    SubMiss(rule, s);
    var tail := Sub(rule, s[1..]);
    if IsWordChar(s[0]) {
      CopyWord(s, tail);
    } else {
      CopyNonWord(s, tail);
    }
  }

  lemma CopyWord(s: string, tail: string)
    requires s != [] && IsWordChar(s[0]) && Settled(tail) && SameLead(tail, s[1..])
    ensures Settled([s[0]] + tail) && SameLead([s[0]] + tail, s)
  {
    PrependWord(s[0], tail);
    LeadOfWord(s[0], tail, s[1..]);
    assert s == [s[0]] + s[1..];
  }

  lemma CopyNonWord(s: string, tail: string)
    requires s != [] && !IsWordChar(s[0]) && MatchMarker(TypeMarkers, s).None?
    requires Settled(tail) && SameLead(tail, s[1..])
    ensures Settled([s[0]] + tail) && SameLead([s[0]] + tail, s)
  {
    forall mk | mk in TypeMarkers ensures !MarkerThenWord(tail, mk) {
      MarkersAreWords(mk);
      MarkerThenWordByLead(tail, s[1..], mk);
      if MarkerThenWord(s[1..], mk) {
        MissedMarker(s, mk);
      }
    }
    PrependNonWord(s[0], tail);
    LeadOfNonWord([s[0]] + tail, s);
  }

  // ----- Steps of the induction -------------------------------------------------------

  /** `u` and `v` begin with the same word run. */
  predicate SameLead(u: string, v: string) {
    Run(Word, u) == Run(Word, v) && u[..Run(Word, u)] == v[..Run(Word, v)]
  }

  lemma SubMiss(rule: Rule, s: string)
    requires s != [] && Rewrite(rule, s).None?
    ensures Sub(rule, s) == [s[0]] + Sub(rule, s[1..])
  {
    ScanMiss(Recogniser(rule), s);
  }

  /** Text that starts with a non-word character has an empty word run. */
  lemma LeadOfNonWord(u: string, v: string)
    requires u != [] && v != [] && u[0] == v[0] && !IsWordChar(v[0])
    ensures SameLead(u, v)
  {
  }

  /** A word character in front extends both word runs alike. */
  lemma LeadOfWord(c: char, u: string, v: string)
    requires IsWordChar(c) && SameLead(u, v)
    ensures SameLead([c] + u, [c] + v)
  {
    assert ([c] + u)[1..] == u && ([c] + v)[1..] == v;
    var n := Run(Word, u);
    assert ([c] + u)[..n + 1] == [c] + u[..n];
    assert ([c] + v)[..n + 1] == [c] + v[..n];
  }

  lemma MarkersAreWords(m: string)
    requires m in TypeMarkers
    ensures m != [] && AllWord(m)
  {
  }

  /** Whether a marker and a word character start a text depends only on its word run. */
  lemma MarkerThenWordByLead(u: string, v: string, m: string)
    requires SameLead(u, v) && m != [] && AllWord(m)
    ensures MarkerThenWord(u, m) <==> MarkerThenWord(v, m)
  {
    if MarkerThenWord(u, m) {
      RunCovers(u, m);
      assert v[..|m|] == v[..Run(Word, v)][..|m|];
      assert u[..|m|] == u[..Run(Word, u)][..|m|];
      assert v[|m|] == v[..Run(Word, v)][|m|];
    }
    if MarkerThenWord(v, m) {
      RunCovers(v, m);
      assert u[..|m|] == u[..Run(Word, u)][..|m|];
      assert v[..|m|] == v[..Run(Word, v)][..|m|];
      assert u[|m|] == u[..Run(Word, u)][|m|];
    }
  }

  /** A marker followed by a word character lies inside the word run. */
  lemma RunCovers(u: string, m: string)
    requires MarkerThenWord(u, m) && AllWord(m)
    ensures Run(Word, u) > |m|
  {
    forall k | 0 <= k <= |m| ensures InClass(Word, u[k]) {
      if k < |m| {
        assert u[..|m|][k] == u[k];
      }
    }
    RunAtLeast(u, |m| + 1);
  }

  lemma {:induction false} RunAtLeast(u: string, n: nat)
    requires n <= |u| && forall k :: 0 <= k < n ==> InClass(Word, u[k])
    ensures Run(Word, u) >= n
    decreases n
  {
    if n > 0 {
      assert InClass(Word, u[0]);
      RunAtLeast(u[1..], n - 1);
    }
  }

  /** A non-word character followed by a marker and a word character is a match, so a
      text the renamer found no match in has none of that shape. */
  lemma MissedMarker(s: string, m: string)
    requires s != [] && !IsWordChar(s[0]) && m in TypeMarkers
    requires MarkerThenWord(s[1..], m)
    ensures MatchMarker(TypeMarkers, s).Some?
  {
    var t := s[1 + |m|..];
    assert t == s[1..][|m|..];
    assert t[0] == s[1..][|m|];
    var name := t[..Run(Word, t)];
    MaximalRunIsRun(Word, t, name);
    assert MarkerMatch(TypeMarkers, s, m, name);
  }

  /** What a match leaves behind starts with a non-word character, and its name is an
      identifier. */
  lemma HitEnds(s: string, m: string, name: string)
    requires MarkerMatch(TypeMarkers, s, m, name)
    ensures 1 + |m| + |name| <= |s| && !IsWordChar(s[0])
    ensures name != [] && AllWord(name)
    ensures var rest := s[1 + |m| + |name|..]; rest == [] || !IsWordChar(rest[0])
  {
    var t := s[1 + |m|..];
    var rest := s[1 + |m| + |name|..];
    assert rest == t[|name|..];
    if rest != [] {
      assert rest[0] == t[|name|];
    }
  }

  /** A resolved name is an emitted one when the name is held by a table or starts with
      no marker. */
  lemma {:induction false} ResolveEmitted(tables: seq<Namespace>, name: string)
    requires ValuesPlain(tables)
    requires name != [] && AllWord(name)
    requires KnownIn(tables, name) || Unmarked(name)
    ensures Emitted(ResolveIn(tables, name))
    decreases |tables|
  {
    if tables != [] {
      match Find(tables[0].entries, name)
      case Some(v) =>
        var a :| 0 <= a < |tables[0].entries| && tables[0].entries[a] == (name, v);
        assert PlainWord(tables[0].entries[a].1);
        if tables[0].fnPointer {
          assert ("*const " + v)[..7] == "*const " && ("*const " + v)[7..] == v;
        }
      case None =>
        forall j, a | 0 <= j < |tables[1..]| && 0 <= a < |tables[1..][j].entries|
          ensures PlainWord(tables[1..][j].entries[a].1)
        {
          assert tables[1..][j] == tables[j + 1];
        }
        if KnownIn(tables, name) {
          var j :| 0 <= j < |tables| && HasKey(tables[j].entries, name);
          assert j != 0;
          assert tables[1..][j - 1] == tables[j];
        }
        ResolveEmitted(tables[1..], name);
    }
  }

  /** Word characters in front of a text without matches add none. */
  lemma {:induction false} PrependWords(w: string, u: string)
    requires AllWord(w) && Settled(u)
    ensures Settled(w + u)
    decreases |w|
  {
    if w != [] {
      var v := w[1..] + u;
      PrependWords(w[1..], u);
      PrependWord(w[0], v);
      assert w + u == [w[0]] + v;
    } else {
      assert w + u == u;
    }
  }

  /** A match never starts at a word character. */
  lemma PrependWord(c: char, u: string)
    requires IsWordChar(c) && Settled(u)
    ensures Settled([c] + u)
  {
    var s := [c] + u;
    forall i | 0 <= i < |s| ensures MatchMarker(TypeMarkers, s[i..]).None? {
      if i > 0 {
        assert s[i..] == u[i - 1..];
      } else {
        assert s[0..] == s;
      }
    }
  }

  /** A non-word character in front of a text without matches adds none, unless a
      marker and a word character follow it. */
  lemma PrependNonWord(c: char, u: string)
    requires !IsWordChar(c) && Settled(u)
    requires forall m :: m in TypeMarkers ==> !MarkerThenWord(u, m)
    ensures Settled([c] + u)
  {
    var s := [c] + u;
    forall i | 0 <= i < |s| ensures MatchMarker(TypeMarkers, s[i..]).None? {
      if i > 0 {
        assert s[i..] == u[i - 1..];
      } else {
        assert s[0..] == s && s[1..] == u;
        MatchIsMarkerThenWord(s);
      }
    }
  }

  /** A match starts with a non-word character, a marker and a word character. */
  lemma MatchIsMarkerThenWord(s: string)
    ensures var r := MatchMarker(TypeMarkers, s);
            r.Some? ==> r.value.0 in TypeMarkers && MarkerThenWord(s[1..], r.value.0)
  {
    var r := MatchMarker(TypeMarkers, s);
    if r.Some? {
      var m := r.value.0;
      var t := s[1 + |m|..];
      assert t[0] == r.value.1[0];
      assert s[1..][|m|] == t[0];
    }
  }

  /** No marker and word character start a plain identifier followed by a non-word
      character. */
  lemma NoMarkerAfterPlain(v: string, t: string)
    requires PlainWord(v) && (t == [] || !IsWordChar(t[0]))
    ensures forall m :: m in TypeMarkers ==> !MarkerThenWord(v + t, m)
  {
    forall m | m in TypeMarkers ensures !MarkerThenWord(v + t, m) {
      MarkersAreWords(m);
      NoMarkerAfterPlainAt(v, t, m);
    }
  }

  lemma NoMarkerAfterPlainAt(v: string, t: string, m: string)
    requires v != [] && AllWord(v) && !StartsWith(v, m)
    requires t == [] || !IsWordChar(t[0])
    requires m != [] && AllWord(m)
    ensures !MarkerThenWord(v + t, m)
  {
    var u := v + t;
    if |m| <= |v| {
      assert u[..|m|] == v[..|m|];
    } else if |m| < |u| {
      assert u[..|m|][|v|] == t[0];
    } else if |m| == |u| {
      assert u[..|m|][|v|] == t[0];
    }
  }

  /** A text whose first character starts no marker starts no marker match. */
  lemma NoMarkerAt(u: string)
    requires u != [] && u[0] != 's' && u[0] != 't' && u[0] != 'u'
    ensures forall m :: m in TypeMarkers ==> !MarkerThenWord(u, m)
  {
    forall m | m in TypeMarkers ensures !MarkerThenWord(u, m) {
      FirstCharMismatch(u, m);
    }
  }

  /** A name written after a non-word character, followed by text without matches that
      begins with a non-word character, leaves no match. */
  lemma SettledEmission(c: char, r: string, t: string)
    requires !IsWordChar(c) && Emitted(r) && Settled(t)
    requires t == [] || !IsWordChar(t[0])
    ensures Settled([c] + r + t)
  {
    if PlainWord(r) {
      SettledPlain(c, r, t);
      assert [c] + r + t == [c] + (r + t);
    } else {
      var v := r[7..];
      SettledPointer(c, v, t);
      assert r == r[..7] + v;
      assert [c] + r + t == [c] + (['*'] + ("const" + ([' '] + (v + t))));
    }
  }

  /** A plain identifier between a non-word character and a settled text. */
  lemma SettledPlain(c: char, v: string, t: string)
    requires !IsWordChar(c) && PlainWord(v) && Settled(t)
    requires t == [] || !IsWordChar(t[0])
    ensures Settled(v + t) && Settled([c] + (v + t))
  {
    PrependWords(v, t);
    NoMarkerAfterPlain(v, t);
    PrependNonWord(c, v + t);
  }

  /** `*const ` and a plain identifier, as the function-pointer tables write them. */
  lemma SettledPointer(c: char, v: string, t: string)
    requires !IsWordChar(c) && PlainWord(v) && Settled(t)
    requires t == [] || !IsWordChar(t[0])
    ensures Settled([c] + (['*'] + ("const" + ([' '] + (v + t)))))
  {
    SettledPlain(' ', v, t);
    var u1 := [' '] + (v + t);
    var u2 := "const" + u1;
    PrependWords("const", u1);
    NoMarkerAt(u2);
    var u3 := ['*'] + u2;
    PrependNonWord('*', u2);
    NoMarkerAt(u3);
    PrependNonWord(c, u3);
  }

  // ----- The script's tables ------------------------------------------------------------

  /** A name whose first two characters already differ from every marker. */
  lemma UnmarkedByHead(v: string)
    requires v != [] && v[0] != 's' && v[0] != 't'
    requires v[0] != 'u' || (|v| > 1 && v[1] != 'n')
    ensures Unmarked(v)
  {
    forall m | m in TypeMarkers ensures !StartsWith(v, m) {
      if m == "union_" && v[0] == 'u' {
        if |v| >= 6 {
          assert v[..6][1] == v[1];
        }
      } else {
        FirstCharMismatch(v, m);
      }
    }
  }

  predicate TableValuesPlain(ns: Namespace) {
    forall a :: 0 <= a < |ns.entries| ==> PlainWord(ns.entries[a].1)
  }

  /** Every value of the table is a nonempty identifier. */
  predicate WordValues(ns: Namespace) {
    forall a :: 0 <= a < |ns.entries| ==>
      ns.entries[a].1 != [] && forall c :: c in ns.entries[a].1 ==> IsWordChar(c)
  }

  /** No value of the table starts with `s` or `t`, or with `un`. */
  predicate HeadsApart(ns: Namespace) {
    forall a :: 0 <= a < |ns.entries| ==> var v := ns.entries[a].1;
      v != [] && v[0] != 's' && v[0] != 't' && (v[0] != 'u' || (|v| > 1 && v[1] != 'n'))
  }

  lemma ValuesPlainOf(ns: Namespace)
    requires WordValues(ns) && HeadsApart(ns)
    ensures TableValuesPlain(ns)
  {
    forall a | 0 <= a < |ns.entries| ensures PlainWord(ns.entries[a].1) {
      var v := ns.entries[a].1;
      assert forall i :: 0 <= i < |v| ==> v[i] in v;
      UnmarkedByHead(v);
    }
  }

  // Each table's values, checked on the literal entries.
  lemma GenWords() ensures WordValues(Gen) { }
  lemma GenHeads() ensures HeadsApart(Gen) { }
  lemma CnvWords() ensures WordValues(Cnv) { }
  lemma CnvHeads() ensures HeadsApart(Cnv) { }
  lemma CnvFnWords() ensures WordValues(CnvFn) { }
  lemma CnvFnHeads() ensures HeadsApart(CnvFn) { }
  lemma IemWords() ensures WordValues(Iem) { }
  lemma IemHeads() ensures HeadsApart(Iem) { }
  lemma ImpWords() ensures WordValues(Imp) { }
  lemma ImpHeads() ensures HeadsApart(Imp) { }
  lemma PdWords() ensures WordValues(Pd) { }
  lemma PdHeads() ensures HeadsApart(Pd) { }
  lemma PdFnWords() ensures WordValues(PdFn) { }
  lemma PdFnHeads() ensures HeadsApart(PdFn) { }

  /** Every canonical name of the seven tables is a plain identifier. */
  lemma ScriptValuesPlain()
    ensures ValuesPlain(LookupOrder)
  {
    GenWords(); GenHeads(); ValuesPlainOf(Gen);
    CnvWords(); CnvHeads(); ValuesPlainOf(Cnv);
    CnvFnWords(); CnvFnHeads(); ValuesPlainOf(CnvFn);
    IemWords(); IemHeads(); ValuesPlainOf(Iem);
    ImpWords(); ImpHeads(); ValuesPlainOf(Imp);
    PdWords(); PdHeads(); ValuesPlainOf(Pd);
    PdFnWords(); PdFnHeads(); ValuesPlainOf(PdFn);
    forall j, a | 0 <= j < |LookupOrder| && 0 <= a < |LookupOrder[j].entries|
      ensures PlainWord(LookupOrder[j].entries[a].1)
    {
      assert TableValuesPlain(LookupOrder[j]);
    }
  }
}
