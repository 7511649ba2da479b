/** Assembly of `cdef.zig`: five imports, the re-exported declarations and the rewritten
    translator output, and the driver that runs the whole rewrite. */
module Output {
  import opened Strings
  import opened Namespaces
  import opened Lines
  import opened Header

  /** `const name = @import("file.zig");` */
  function ImportLine(name: string, file: string): string {
    "const " + name + " = @import(\"" + file + ".zig\");"
  }

  /** The import lines that open `cdef.zig`; each is written with its own line break. */
  const Imports: seq<string> := [
    ImportLine("pd", "pd"),
    ImportLine("imp", "imp"),
    ImportLine("cnv", "canvas"),
    ImportLine("iem", "all_guis"),
    ImportLine("stf", "stuff")
  ]

  /** Each line followed by a line break. */
  function Terminated(xs: seq<string>): string {
    if xs == [] then "" else xs[0] + "\n" + Terminated(xs[1..])
  }

  /** The text of `cdef.zig`. */
  function CDef(decls: seq<string>, lines: seq<string>): string {
    Terminated(Imports) + Join(decls) + "\n" + Join(lines)
  }

  /** Terminating every line and appending one more is joining them all. */
  lemma {:induction false} TerminatedJoin(xs: seq<string>, t: string)
    ensures Terminated(xs) + t == Join(xs + [t])
    decreases |xs|
  {
    if xs != [] {
      TerminatedJoin(xs[1..], t);
      assert (xs + [t])[1..] == xs[1..] + [t];
      assert |xs + [t]| > 1;
    } else {
      assert xs + [t] == [t];
    }
  }

  /** `cdef.zig` is the imports, the declarations and the translated lines, one per line,
      when there are declarations and translated lines. */
  lemma CDefJoin(decls: seq<string>, lines: seq<string>)
    requires decls != [] && lines != []
    ensures CDef(decls, lines) == Join(Imports + decls + lines)
  {
    var t := Terminated(Imports);
    JoinAppend(decls, lines);
    assert t + Join(decls) + "\n" + Join(lines) == t + (Join(decls) + "\n" + Join(lines));
    TerminatedJoin(Imports, Join(decls + lines));
    JoinLast(Imports, decls + lines);
    assert Imports + decls + lines == Imports + (decls + lines);
  }

  lemma JoinLast(xs: seq<string>, ys: seq<string>)
    requires xs != [] && ys != []
    ensures Join(xs + [Join(ys)]) == Join(xs + ys)
  {
    JoinAppend(xs, [Join(ys)]);
    JoinAppend(xs, ys);
  }

  /** With no translated lines the file ends with the line break after the
      declarations. */
  lemma CDefEmpty(decls: seq<string>)
    ensures CDef(decls, []) == Join(Imports + [Join(decls)]) + "\n"
  {
    TerminatedJoin(Imports, Join(decls));
  }

  /** Splitting `cdef.zig` at its line breaks gives five imports, then the declarations,
      then the translated lines, when no line holds a line break. */
  lemma CDefLines(decls: seq<string>, lines: seq<string>)
    requires decls != [] && lines != []
    requires forall k :: 0 <= k < |decls| ==> NoNewline(decls[k])
    requires forall k :: 0 <= k < |lines| ==> NoNewline(lines[k])
    ensures SplitLines(CDef(decls, lines)) == Imports + decls + lines
    ensures |SplitLines(CDef(decls, lines))| == 5 + |decls| + |lines|
  {
    var all := Imports + decls + lines;
    forall k | 0 <= k < |all| ensures NoNewline(all[k]) {
      if k < 5 {
        ImportsNoNewline(k);
      } else if k < 5 + |decls| {
        assert all[k] == decls[k - 5];
      } else {
        assert all[k] == lines[k - 5 - |decls|];
      }
    }
    CDefJoin(decls, lines);
    SplitJoin(all);
  }

  lemma ImportsNoNewline(k: nat)
    requires k < |Imports|
    ensures NoNewline(Imports[k])
  {
    if k == 0 { ImportNoNewline("pd", "pd"); }
    else if k == 1 { ImportNoNewline("imp", "imp"); }
    else if k == 2 { ImportNoNewline("cnv", "canvas"); }
    else if k == 3 { ImportNoNewline("iem", "all_guis"); }
    else { ImportNoNewline("stf", "stuff"); }
  }

  lemma ImportNoNewline(name: string, file: string)
    requires NoNewline(name) && NoNewline(file)
    ensures NoNewline(ImportLine(name, file))
  {
  }

  /** The whole rewrite. `header` holds the lines of `m_pd.h` and `translated` the lines
      the C translator printed for the patched header; reading the one and running the
      other are not part of the model. Returns the patched header text and `cdef.zig`. */
  method Translate(header: array<string>, translated: array<string>)
    returns (headerText: string, cdef: string)
    requires header != translated
    modifies header, translated
    ensures header[..] == PatchAll(old(header[..]))
    ensures headerText == HeaderText(old(header[..]))
    ensures forall i :: 0 <= i < translated.Length ==>
              translated[i] == RewriteLine(LookupOrder, old(translated[i]))
    ensures cdef == CDef(AllReexports(LookupOrder), translated[..])
  {
    var patched := PatchHeader(header);
    headerText := Join(patched);
    RewriteLines(LookupOrder, translated);
    var decls := BuildDecls();
    cdef := Terminated(Imports) + Join(decls) + "\n" + Join(translated[..]);
  }
}
