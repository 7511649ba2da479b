/** The seven constant name tables of translate-c.py, the lookup that resolves a
    library-internal identifier through them, and the re-export list `decls`. */
module Namespaces {
  import opened Strings

  /** A Python dict in insertion order: short identifier to canonical name. */
  type Table = seq<(string, string)>

  /** One name table: its entries, whether a hit denotes a function-pointer alias
      (emitted as `*const Name`), and the Zig module its names are re-exported from
      (`gen` is never re-exported). */
  datatype Namespace = Namespace(entries: Table, fnPointer: bool, home: Option<string>)

  const Gen := Namespace([("atomtype", "c_int"), ("int", "usize")], false, None)

  const Cnv := Namespace(
    [("array", "Array"), ("dataslot", "DataSlot"), ("glist", "GList"),
     ("parentwidgetbehavior", "ParentWidgetBehavior"), ("template", "Template"),
     ("widgetbehavior", "WidgetBehavior")],
    false, Some("cnv"))

  const CnvFn := Namespace(
    [("glistkeyfn", "GListKeyFn"), ("glistmotionfn", "GListMotionFn")],
    true, Some("cnv"))

  const Iem := Namespace(
    [("iem_fstyle_flags", "FontStyleFlags"), ("iem_init_symargs", "InitSymArgs"),
     ("iemgui", "Gui"), ("iemgui_drawfunctions", "DrawFunctions")],
    false, Some("iem"))

  const Imp := Namespace([("class", "Class")], false, Some("imp"))

  const Pd := Namespace(
    [("atom", "Atom"), ("binbuf", "BinBuf"), ("clock", "Clock"), ("float", "Float"),
     ("floatarg", "Float"), ("garray", "GArray"), ("gobj", "GObj"),
     ("gpointer", "GPointer"), ("gstub", "GStub"), ("pd", "Pd"), ("sample", "Sample"),
     ("symbol", "Symbol"), ("text", "Object")],
    false, Some("pd"))

  const PdFn := Namespace(
    [("classfreefn", "ClassFreeFn"), ("guicallbackfn", "GuiCallbackFn"),
     ("method", "Method"), ("newmethod", "NewMethod"), ("perfroutine", "PerfRoutine"),
     ("propertiesfn", "PropertiesFn"), ("savefn", "SaveFn")],
    true, Some("pd"))

  /** The order in which the renamer consults the tables, which is also the order in
      which they are declared and re-exported. */
  const LookupOrder: seq<Namespace> := [Gen, Cnv, CnvFn, Iem, Imp, Pd, PdFn]

  predicate HasKey(t: Table, name: string) {
    exists e :: e in t && e.0 == name
  }

  /** Dict lookup: the value stored under `name`, if any. */
  function Find(t: Table, name: string): (r: Option<string>)
    ensures r.Some? <==> HasKey(t, name)
    ensures r.Some? ==> (name, r.value) in t
  {
    if t == [] then None
    else if t[0].0 == name then Some(t[0].1)
    else Find(t[1..], name)
  }

  /** What a hit in `ns` is replaced by. */
  function Emit(ns: Namespace, canonical: string): string {
    if ns.fnPointer then "*const " + canonical else canonical
  }

  /** The if/elif chain of `re_type`: the first table holding `name` decides, and a
      name held by none is returned as it is. */
  function ResolveIn(order: seq<Namespace>, name: string): string {
    if order == [] then name
    else match Find(order[0].entries, name)
      case Some(v) => Emit(order[0], v)
      case None => ResolveIn(order[1..], name)
  }

  function Resolve(name: string): string {
    ResolveIn(LookupOrder, name)
  }

  /** The first table in `order` that holds `name` is the one that decides. */
  lemma {:induction false} ResolveInFirstHit(order: seq<Namespace>, name: string, k: nat)
    requires k < |order| && HasKey(order[k].entries, name)
    requires forall j :: 0 <= j < k ==> !HasKey(order[j].entries, name)
    ensures ResolveIn(order, name) == Emit(order[k], Find(order[k].entries, name).value)
    decreases k
  {
    if k > 0 {
      assert !HasKey(order[0].entries, name);
      ResolveInFirstHit(order[1..], name, k - 1);
    }
  }

  /** A name that no table in `order` holds comes out unchanged. */
  lemma {:induction false} ResolveInMiss(order: seq<Namespace>, name: string)
    requires forall j :: 0 <= j < |order| ==> !HasKey(order[j].entries, name)
    ensures ResolveIn(order, name) == name
    decreases |order|
  {
    if order != [] {
      assert !HasKey(order[0].entries, name);
      ResolveInMiss(order[1..], name);
    }
  }

  predicate Known(name: string) {
    exists k :: 0 <= k < |LookupOrder| && HasKey(LookupOrder[k].entries, name)
  }

  /** No short identifier is held by two tables. */
  lemma KeysDisjoint(j: nat, k: nat, a: nat, b: nat)
    requires j < k < |LookupOrder|
    requires a < |LookupOrder[j].entries| && b < |LookupOrder[k].entries|
    ensures LookupOrder[j].entries[a].0 != LookupOrder[k].entries[b].0
  {
    if j == 0 { GenKeysApart(k, a, b); }
    else if j == 1 { CnvKeysApart(k, a, b); }
    else if j == 2 { CnvFnKeysApart(k, a, b); }
    else if j == 3 { IemKeysApart(k, a, b); }
    else if j == 4 { ImpKeysApart(k, a, b); }
    else { PdKeysApart(k, a, b); }
  }

  lemma GenKeysApart(k: nat, a: nat, b: nat)
    requires 0 < k < |LookupOrder|
    requires a < |LookupOrder[0].entries| && b < |LookupOrder[k].entries|
    ensures LookupOrder[0].entries[a].0 != LookupOrder[k].entries[b].0
  {
  }

  lemma CnvKeysApart(k: nat, a: nat, b: nat)
    requires 1 < k < |LookupOrder|
    requires a < |LookupOrder[1].entries| && b < |LookupOrder[k].entries|
    ensures LookupOrder[1].entries[a].0 != LookupOrder[k].entries[b].0
  {
  }

  lemma CnvFnKeysApart(k: nat, a: nat, b: nat)
    requires 2 < k < |LookupOrder|
    requires a < |LookupOrder[2].entries| && b < |LookupOrder[k].entries|
    ensures LookupOrder[2].entries[a].0 != LookupOrder[k].entries[b].0
  {
  }

  lemma IemKeysApart(k: nat, a: nat, b: nat)
    requires 3 < k < |LookupOrder|
    requires a < |LookupOrder[3].entries| && b < |LookupOrder[k].entries|
    ensures LookupOrder[3].entries[a].0 != LookupOrder[k].entries[b].0
  {
  }

  lemma ImpKeysApart(k: nat, a: nat, b: nat)
    requires 4 < k < |LookupOrder|
    requires a < |LookupOrder[4].entries| && b < |LookupOrder[k].entries|
    ensures LookupOrder[4].entries[a].0 != LookupOrder[k].entries[b].0
  {
  }

  lemma PdKeysApart(k: nat, a: nat, b: nat)
    requires 5 < k < |LookupOrder|
    requires a < |LookupOrder[5].entries| && b < |LookupOrder[k].entries|
    ensures LookupOrder[5].entries[a].0 != LookupOrder[k].entries[b].0
  {
  }

  /** Within one table every key is stored once, as in a dict. */
  lemma KeysUnique(k: nat, a: nat, b: nat)
    requires k < |LookupOrder|
    requires a < b < |LookupOrder[k].entries|
    ensures LookupOrder[k].entries[a].0 != LookupOrder[k].entries[b].0
  {
  }

  /** No canonical name, plain or wrapped, is the same text as its short name, and only
      the function-pointer tables emit a `*`. */
  lemma EmitDiffers(k: nat, a: nat)
    requires k < |LookupOrder| && a < |LookupOrder[k].entries|
    ensures Emit(LookupOrder[k], LookupOrder[k].entries[a].1) != LookupOrder[k].entries[a].0
    ensures LookupOrder[k].entries[a].1 != [] && LookupOrder[k].entries[a].1[0] != '*'
  {
  }

  lemma {:induction false} FindAt(t: Table, a: nat)
    requires a < |t|
    requires forall b :: 0 <= b < a ==> t[b].0 != t[a].0
    ensures Find(t, t[a].0) == Some(t[a].1)
  {
    if a > 0 {
      assert t[0].0 != t[a].0;
      FindAt(t[1..], a - 1);
    }
  }

  lemma HasKeyAt(t: Table, name: string) returns (a: nat)
    requires HasKey(t, name)
    ensures a < |t| && t[a].0 == name
  {
    var e :| e in t && e.0 == name;
    a :| 0 <= a < |t| && t[a] == e;
  }

  /** Every entry of every table: its short name resolves to the entry's canonical
      name, wrapped as `*const Name` exactly when the table is a function-pointer table. */
  lemma ResolveEntry(k: nat, a: nat)
    requires k < |LookupOrder| && a < |LookupOrder[k].entries|
    ensures Resolve(LookupOrder[k].entries[a].0) ==
            if k == 2 || k == 6 then "*const " + LookupOrder[k].entries[a].1
            else LookupOrder[k].entries[a].1
  {
    var name := LookupOrder[k].entries[a].0;
    forall b | 0 <= b < a ensures LookupOrder[k].entries[b].0 != name {
      KeysUnique(k, b, a);
    }
    FindAt(LookupOrder[k].entries, a);
    forall j | 0 <= j < k ensures !HasKey(LookupOrder[j].entries, name) {
      if HasKey(LookupOrder[j].entries, name) {
        var b := HasKeyAt(LookupOrder[j].entries, name);
        KeysDisjoint(j, k, b, a);
        assert false;
      }
    }
    ResolveInFirstHit(LookupOrder, name, k);
  }

  /** `symbol` is a `pd` name: it resolves to `Symbol`, never to `pd.Symbol`. */
  lemma ResolveSymbol()
    ensures Resolve("symbol") == "Symbol"
  {
    ResolveEntry(5, 11);
  }

  /** A name held by no table is emitted unchanged: unresolved identifiers are not an
      error. */
  lemma ResolveUnknown(name: string)
    requires !Known(name)
    ensures Resolve(name) == name
  {
    ResolveInMiss(LookupOrder, name);
  }

  /** Resolution changes a name exactly when some table holds it. */
  lemma ResolveChanges(name: string)
    ensures Resolve(name) != name <==> Known(name)
  {
    if Known(name) {
      var k :| 0 <= k < |LookupOrder| && HasKey(LookupOrder[k].entries, name);
      var a := HasKeyAt(LookupOrder[k].entries, name);
      EntryChanges(k, a);
    } else {
      ResolveUnknown(name);
    }
  }

  /** The short name of an entry never resolves to itself. */
  lemma EntryChanges(k: nat, a: nat)
    requires k < |LookupOrder| && a < |LookupOrder[k].entries|
    ensures Resolve(LookupOrder[k].entries[a].0) != LookupOrder[k].entries[a].0
  {
    ResolveEntry(k, a);
    EmitDiffers(k, a);
    assert LookupOrder[k].fnPointer <==> k == 2 || k == 6;
  }

  /** A short name held by table k is held by no other table. */
  lemma OnlyHome(name: string, k: nat, a: nat)
    requires k < |LookupOrder| && a < |LookupOrder[k].entries|
    requires LookupOrder[k].entries[a].0 == name
    ensures forall j :: 0 <= j < |LookupOrder| && j != k ==> !HasKey(LookupOrder[j].entries, name)
  {
    forall j | 0 <= j < |LookupOrder| && j != k
      ensures !HasKey(LookupOrder[j].entries, name)
    {
      if HasKey(LookupOrder[j].entries, name) {
        var b := HasKeyAt(LookupOrder[j].entries, name);
        if j < k { KeysDisjoint(j, k, b, a); } else { KeysDisjoint(k, j, a, b); }
        assert false;
      }
    }
  }

  /** For a name without a `*`, the output is a `*const` function-pointer annotation
      exactly when the name is a key of `cnv_fn` or `pd_fn`. */
  lemma ResolveFnPointer(name: string)
    requires forall i :: 0 <= i < |name| ==> name[i] != '*'
    ensures StartsWith(Resolve(name), "*const ") <==>
            (HasKey(CnvFn.entries, name) || HasKey(PdFn.entries, name))
  {
    assert LookupOrder[2] == CnvFn && LookupOrder[6] == PdFn;
    var r := Resolve(name);
    if Known(name) {
      var k :| 0 <= k < |LookupOrder| && HasKey(LookupOrder[k].entries, name);
      var a := HasKeyAt(LookupOrder[k].entries, name);
      ResolveEntry(k, a);
      EmitDiffers(k, a);
      OnlyHome(name, k, a);
      var v := LookupOrder[k].entries[a].1;
      if k == 2 || k == 6 {
        assert r == "*const " + v;
        assert r[..7] == "*const ";
        assert StartsWith(r, "*const ");
      } else {
        assert r == v && v[0] != '*';
        FirstCharMismatch(r, "*const ");
        assert !HasKey(LookupOrder[2].entries, name);
        assert !HasKey(LookupOrder[6].entries, name);
      }
    } else {
      ResolveUnknown(name);
      assert !HasKey(LookupOrder[2].entries, name);
      assert !HasKey(LookupOrder[6].entries, name);
      assert |name| == 0 || name[0] != '*';
      FirstCharMismatch(r, "*const ");
    }
  }

  /** The line `decls` holds for a canonical name `v` of a table re-exported from `home`. */
  function ReexportLine(home: string, v: string): string {
    "const " + v + " = " + home + "." + v + ";"
  }

  /** One list comprehension over a table's values, in dict order. */
  function Reexports(ns: Namespace): (r: seq<string>)
    ensures ns.home.None? ==> r == []
    ensures ns.home.Some? ==> |r| == |ns.entries|
    ensures ns.home.Some? ==>
              forall a :: 0 <= a < |r| ==> r[a] == ReexportLine(ns.home.value, ns.entries[a].1)
  {
    if ns.home.None? then []
    else seq(|ns.entries|, a requires 0 <= a < |ns.entries| =>
               ReexportLine(ns.home.value, ns.entries[a].1))
  }

  /** The comprehensions of all re-exported tables, concatenated in table order. */
  function AllReexports(order: seq<Namespace>): seq<string> {
    Flatten(Reexports, order)
  }

  /** The lines `f` gives for each table, concatenated in table order. */
  function Flatten(f: Namespace -> seq<string>, order: seq<Namespace>): seq<string> {
    if order == [] then [] else f(order[0]) + Flatten(f, order[1..])
  }

  /** Number of entries of the re-exported tables of `order`. */
  function ReexportCount(order: seq<Namespace>): nat {
    if order == [] then 0
    else (if order[0].home.Some? then |order[0].entries| else 0) + ReexportCount(order[1..])
  }

  /** `decls += [...]` for one table. */
  method AppendReexports(decls: seq<string>, ns: Namespace) returns (out: seq<string>)
    requires ns.home.Some?
    ensures out == decls + Reexports(ns)
  {
    out := decls;
    var a := 0;
    while a < |ns.entries|
      invariant 0 <= a <= |ns.entries|
      invariant |out| == |decls| + a && out[..|decls|] == decls
      invariant forall b :: 0 <= b < a ==>
        out[|decls| + b] == ReexportLine(ns.home.value, ns.entries[b].1)
    {
      out := out + [ReexportLine(ns.home.value, ns.entries[a].1)];
      a := a + 1;
    }
  }

  /** The module-level construction of `decls`: every table but `gen`, in declaration
      order. */
  method BuildDecls() returns (decls: seq<string>)
    ensures decls == AllReexports(LookupOrder)
  {
    decls := [];
    decls := AppendReexports(decls, Cnv);
    decls := AppendReexports(decls, CnvFn);
    decls := AppendReexports(decls, Iem);
    decls := AppendReexports(decls, Imp);
    decls := AppendReexports(decls, Pd);
    decls := AppendReexports(decls, PdFn);
    DeclsByTable();
  }

  /** The re-export list, table by table. */
  lemma DeclsByTable()
    ensures AllReexports(LookupOrder) ==
      Reexports(Cnv) + Reexports(CnvFn) + Reexports(Iem) + Reexports(Imp)
      + Reexports(Pd) + Reexports(PdFn)
  {
    FlattenOfSeven(Reexports, LookupOrder);
  }

  /** Seven tables whose first contributes nothing, table by table. */
  lemma FlattenOfSeven(f: Namespace -> seq<string>, o: seq<Namespace>)
    requires |o| == 7 && f(o[0]) == []
    ensures Flatten(f, o) == f(o[1]) + f(o[2]) + f(o[3]) + f(o[4]) + f(o[5]) + f(o[6])
  {
    assert o[..0] == [];
    FlattenPrefix(f, o, 0);
    assert [] + f(o[1]) == f(o[1]);
    FlattenPrefix(f, o, 1);
    FlattenPrefix(f, o, 2);
    FlattenPrefix(f, o, 3);
    FlattenPrefix(f, o, 4);
    FlattenPrefix(f, o, 5);
    FlattenPrefix(f, o, 6);
    assert o[..7] == o;
  }

  /** The lines of the first `k + 1` tables. */
  lemma FlattenPrefix(f: Namespace -> seq<string>, o: seq<Namespace>, k: nat)
    requires k < |o|
    ensures Flatten(f, o[..k + 1]) == Flatten(f, o[..k]) + f(o[k])
  {
    assert o[..k + 1] == o[..k] + [o[k]];
    FlattenSnoc(f, o[..k], o[k]);
  }

  /** Adding a table at the end adds its lines at the end. */
  lemma {:induction false} FlattenSnoc(f: Namespace -> seq<string>, order: seq<Namespace>, n: Namespace)
    ensures Flatten(f, order + [n]) == Flatten(f, order) + f(n)
    decreases |order|
  {
    if order == [] {
      assert [] + [n] == [n];
      assert [n][1..] == [];
    } else {
      assert (order + [n])[1..] == order[1..] + [n];
      FlattenSnoc(f, order[1..], n);
    }
  }

  /** One re-export line per entry of every re-exported table. */
  lemma {:induction false} ReexportsLength(order: seq<Namespace>)
    ensures |AllReexports(order)| == ReexportCount(order)
  {
    if order != [] {
      ReexportsLength(order[1..]);
      assert |Reexports(order[0])| == if order[0].home.Some? then |order[0].entries| else 0;
    }
  }

  /** `decls` has 33 lines: one per entry of every table but `gen`. */
  lemma DeclsCount()
    ensures |AllReexports(LookupOrder)| == 33
    ensures |AllReexports(LookupOrder)| == ReexportCount(LookupOrder)
    ensures ReexportCount(LookupOrder) ==
            |Cnv.entries| + |CnvFn.entries| + |Iem.entries| + |Imp.entries| + |Pd.entries|
            + |PdFn.entries|
  {
    ReexportsLength(LookupOrder);
    DeclsByTable();
  }

  /** The first and last lines of `decls`; duplicates are kept, so `Float`, the value of
      both `float` and `floatarg`, is re-exported twice. */
  lemma DeclsShape()
    ensures |AllReexports(LookupOrder)| == 33
    ensures AllReexports(LookupOrder)[0] == ReexportLine("cnv", "Array")
    ensures AllReexports(LookupOrder)[16] == ReexportLine("pd", "Float")
    ensures AllReexports(LookupOrder)[17] == ReexportLine("pd", "Float")
    ensures AllReexports(LookupOrder)[32] == ReexportLine("pd", "SaveFn")
  {
    DeclsCount();
    var d := AllReexports(LookupOrder);
    DeclsByTable();
    assert d[16] == Reexports(Pd)[3];
    assert d[17] == Reexports(Pd)[4];
    assert d[32] == Reexports(PdFn)[6];
    assert d[0] == Reexports(Cnv)[0];
  }
}
