# translate-c.py, modelled in Dafny

`translate-c.py` produces the Zig binding `cdef.zig` for Pure Data's C header `m_pd.h`,
in three steps:

1. It patches the header. A `te_type` bit field becomes a whole byte, lines that start
   with `PD_DEPRECATED` are blanked, and four more headers are included at the end.
2. It hands the patched header to `zig translate-c`.
3. It rewrites the translator's output line by line.
   - A line that starts with `pub extern fn` or `pub const W = ?*const fn` is cut by
     `(.*)\((?!\.)(.*)\)(.*)` into group 1, group 2 and group 3. When the cut succeeds,
     group 1 is kept verbatim.
   - In group 2 (the text between the cut's parentheses), C type names are renamed. Then
     each `name: [*c]` and `name: ?*` parameter gets a Zig pointer. Then each `[*c][*c]`
     double pointer gets one.
   - In group 3 (the text after the closing parenthesis), C type names are renamed, and
     then each `[*c]` pointer gets a Zig pointer.
   - Renaming works like this: a C type name (`struct__glist`, `t_symbol`, `union_…`)
     after a non-word character loses its marker, and the name is looked up in seven name
     tables. A name a table holds becomes that table's value: a TitleCase name of the
     binding, `*const` and one for the two function-pointer tables, or `c_int` / `usize`
     for the `gen` table. A name no table holds keeps its own spelling.
   - In a struct alias `pub const t_X = struct__Y`, the `struct__` and `union_` names are
     renamed.
   - All other lines pass through.

The result is five `@import` lines, the re-export lines `decls` (one per value of every
table but `gen`, which has no home module) and the rewritten lines.

The model has seven modules:

- `Strings`: the `\w` and `[\w\.]` classes, greedy runs, prefix tests, and `"\n".join`
  with its inverse.
- `Namespaces`: the seven tables as `Namespace` values, the lookup chain of `re_type`, and
  the `decls` list built by a method.
- `Rewrites`: the five patterns of the six `re.sub` calls (`r_type` runs on both group 2
  and group 3). One left-to-right scanner (`Scan`/`Sub`) applies a
  `Rule` the way `re.sub` does: leftmost match first, no overlaps, and unmatched text
  copied. Each rule's pattern is written out as a recogniser at the start of a text,
  backtracking included. For example, `(const )?` falls back to no qualifier when no type
  follows `const `.
- `Renaming`: what renaming twice does. It gives a text on which renaming once more
  differs, and the condition under which a second pass changes nothing.
- `Lines`: the line classifier, the split `(.*)\((?!\.)(.*)\)(.*)`, the rewrite of one
  line (`RewriteLine`), and the in-place loop over the translated lines.
- `Header`: the header patch, as a function and as the in-place loop of the script.
- `Output`: the text of `cdef.zig`, and the driver `Translate`.

The line rewrite takes the tables as a parameter; the script's own tables are
`Namespaces.LookupOrder`, and `Output.Translate` passes them.

The model follows the code where it is narrower than one might expect:

- A name held by no table is not an error. Its marker is stripped and the name is kept.
- An alias line keeps its left-hand `t_X`; only `struct__`/`union_` markers are renamed.
- The double-pointer rule compares the type text with `pd.Symbol`. The renamer writes a
  bare `Symbol`, so a renamed `t_symbol` double pointer gets `*[*]`
  (`Rewrites.RenamedSymbolDoublePointer`).
- Renaming is not idempotent. ` struct__t_x` becomes ` t_x`, because no table holds
  `t_x`, and a second pass makes that ` x` (`Renaming.RenameTwiceDiffers`). A second
  pass changes nothing when every captured name is held by a table or starts with none
  of `struct__`, `t_`, `union_` (`Renaming.RenameIdempotent`).
- Group 1 of the cut ends at the last `(` not followed by `.` that comes before the last
  `)`. When a parameter is itself an inline function pointer, that `(` is the one after
  its `fn`. So the parameters before it are copied verbatim, C type names and `[*c]`
  included (`Lines.InlineFnPointerSplit`).
  - `pub extern fn f(a: [*c]struct__pd, cb: ?*const fn ([*c]u8) callconv(.C) void) void;`
    comes out unchanged.
- Only `[*c]` is rewritten in a return type. A `?*anyopaque` return is kept, and a
  `[*c][*c]u8` return becomes `[*c][*:0]u8`, because the double-pointer rule runs on the
  parameters only.
- The parameter pattern needs `name: ` in front of the pointer. Unnamed parameters keep
  their C pointer: in `pub extern fn foo([*c]struct__pd, [*c]const u8) [*c]u8` only the
  type name and the return pointer change, giving
  `pub extern fn foo([*c]Pd, [*c]const u8) [*:0]u8` (`Rewrites.UnnamedParamsKept`).

## Model

| member | source | states |
|---|---|---|
| Namespaces.Find | translate-c.py:77-83 | a dict lookup finds a value exactly when the table holds the key, and the value found is stored under that key |
| Namespaces.ResolveInFirstHit | translate-c.py:75-84 | the first table in lookup order that holds the name decides the replacement |
| Namespaces.ResolveInMiss | translate-c.py:75-84 | a name held by no table in the order is returned unchanged |
| Namespaces.ResolveEntry | translate-c.py:75-84 | every key of every table resolves to its own canonical name, as `*const Name` exactly for `cnv_fn` and `pd_fn` |
| Namespaces.ResolveSymbol | translate-c.py:55 | `symbol` resolves to the bare `Symbol` |
| Namespaces.ResolveUnknown | translate-c.py:84 | a name unknown to all seven tables is emitted unchanged, without failure |
| Namespaces.ResolveChanges | translate-c.py:75-84 | resolution changes a name if and only if some table holds it |
| Namespaces.ResolveFnPointer | translate-c.py:79-83 | for a name without `*`, the result starts with `*const ` if and only if `cnv_fn` or `pd_fn` holds the name |
| Namespaces.KeysDisjoint | translate-c.py:9-69 | no short name is a key of two tables, so the lookup order never shadows an entry |
| Namespaces.KeysUnique | translate-c.py:9-69 | within one table every key is stored once |
| Namespaces.EmitDiffers | translate-c.py:9-69 | no canonical name, wrapped or not, equals its short name, and no canonical name starts with `*` |
| Namespaces.OnlyHome | translate-c.py:9-69 | a key of one table is held by no other table |
| Namespaces.Reexports | translate-c.py:22 | the reference definition of one `decls +=` comprehension: no line for a table without a home module (`gen`), otherwise one `const V = home.V;` line per entry in entry order. What `decls` then holds is stated by `AppendReexports`, `DeclsByTable` and `DeclsShape` |
| Namespaces.AppendReexports | translate-c.py:22 | one `decls +=` appends one `const V = home.V;` line per table value, in dict order, after the existing lines |
| Namespaces.BuildDecls | translate-c.py:22-69 | the module-level construction of `decls` yields the re-export lines of the tables in lookup order |
| Namespaces.DeclsByTable | translate-c.py:22-69 | `decls` is the lines of `cnv`, `cnv_fn`, `iem`, `imp`, `pd` and `pd_fn`, in that order, and none of `gen` |
| Namespaces.ReexportsLength | translate-c.py:22-69 | there is one re-export line per entry of every re-exported table |
| Namespaces.DeclsCount | translate-c.py:22-69 | `decls` has 33 lines, the entry count of the six re-exported tables |
| Namespaces.DeclsShape | translate-c.py:14-69 | `decls` starts with `Array`, re-exports `Float` twice (for `float` and `floatarg`), and ends with `SaveFn` |
| Rewrites.MatchMarker | translate-c.py:74 | the marker pattern matches exactly when a non-word character is followed by a marker and a word, and returns that marker and the whole word |
| Rewrites.MarkerMatchUnique | translate-c.py:74 | with markers that differ in their first character, a match of the marker pattern is unique |
| Rewrites.MatchConstType | translate-c.py:86 | `(const )?([\w\.]+)` takes the qualifier whenever a type can follow it and otherwise matches without it; no match exactly when neither is possible |
| Rewrites.ParamToken | translate-c.py:94 | the pointer alternative of the parameter pattern is `[*c]` or `?*`, whichever starts the text |
| Rewrites.ScanUnmatched | translate-c.py:150-154 | text in which no match starts is copied, and the substitution goes on after it as on the remainder alone |
| Rewrites.ScanFrom | translate-c.py:150-154 | a stretch of text in which no match starts is copied verbatim by the substitution |
| Rewrites.SubUnmatched | translate-c.py:150-154 | each substitution copies text outside its matches |
| Rewrites.NoMatchNoChange | translate-c.py:150-154 | a substitution leaves a text without matches unchanged |
| Rewrites.RenameMarkerAt | translate-c.py:74-84 | at a marker after a non-word character, the character is kept, marker and name become the resolved name, and the substitution continues after the name |
| Rewrites.RenameType | translate-c.py:74-84 | with the script's tables, a marker and name become `Resolve(name)` and the preceding character is kept |
| Rewrites.MatchConstTypeQualified | translate-c.py:86 | `const ` followed by a type is matched with the qualifier |
| Rewrites.MatchConstTypeBare | translate-c.py:86 | a bare type other than `const` is matched without the qualifier |
| Rewrites.PointerAt | translate-c.py:86 | a pointer token followed by `(const )?([\w\.]+)` matches exactly when the text starts with the token and a type follows, with or without `const `; the qualifier is left out only when no type can follow `const ` |
| Rewrites.ReturnRewriteAt | translate-c.py:86-90 | `[*c]` before an optional `const ` and a type becomes `[*:0]` exactly for `u8` and `*` otherwise; qualifier and type are kept in order |
| Rewrites.ParamRewriteAt | translate-c.py:94-105 | `name: [*c]` and `name: ?*` become `name: ` + the parameter pointer + qualifier + type, so no `?*` survives on a matched parameter |
| Rewrites.ParamPointerCases | translate-c.py:99-104 | the parameter pointer is `[*]` exactly when the name ends in `argv`, `av` or `vec`, overriding the type; otherwise `[*:0]` for `u8` and `*` for other types |
| Rewrites.DoubleRewriteAt | translate-c.py:109-112 | `[*c][*c]` becomes `**` exactly when the type text is `pd.Symbol` and `*[*]` otherwise; qualifier and type are kept |
| Rewrites.RenamedSymbolDoublePointer | translate-c.py:111 | a double pointer to the renamed `symbol` gets `*[*]`, because the renamer never writes `pd.Symbol` |
| Rewrites.UnnamedParamsKept | translate-c.py:94 | a parameter list without `:` passes the parameter substitution unchanged, so an unnamed `[*c]` or `?*` parameter keeps its C pointer |
| Rewrites.UnnamedParamsExample | translate-c.py:94 | the renamed unnamed parameters `[*c]Pd, [*c]const u8` pass the parameter substitution unchanged |
| Renaming.RenameTwiceDiffers | translate-c.py:74-84 | with the script's tables, renaming ` struct__t_x` a second time changes it again |
| Renaming.RenameStructIn | translate-c.py:74-84 | with tables that do not hold `t_x`, ` struct__t_x` becomes ` t_x` |
| Renaming.RenameTIn | translate-c.py:74-84 | with tables that do not hold `x`, ` t_x` becomes ` x` |
| Renaming.RenameUnknownAt | translate-c.py:74-84 | after a space, a marker and a name that no table changes lose the marker and keep the name |
| Renaming.UnknownName | translate-c.py:9-84 | neither `t_x` nor `x` is a key of the seven tables, so both resolve to themselves |
| Renaming.RenameIdempotent | translate-c.py:74-84 | when every table value is an identifier that starts with no marker, and every captured name is held by a table or starts with no marker, renaming twice is renaming once |
| Renaming.RenameIdempotentScript | translate-c.py:9-84 | the same with the script's seven tables, given only the condition on the captured names |
| Renaming.RenameSettles | translate-c.py:74-84 | under the same conditions the renamed text holds no match of the pattern and starts with the same word run as the input |
| Renaming.ResolveEmitted | translate-c.py:75-84 | a name that a table holds, or that starts with no marker, resolves to an identifier that starts with no marker, or `*const ` and one |
| Renaming.ScriptValuesPlain | translate-c.py:9-69 | every value of the seven tables is a nonempty identifier that starts with none of the markers |
| Lines.MatchWordsThen | translate-c.py:147 | `\w+` before a literal that starts with a non-word character matches at most one word: the whole word run, when the literal follows it |
| Lines.LastBefore | translate-c.py:148 | finds the last `)` of a line, or reports that there is none |
| Lines.LastOpen | translate-c.py:148 | finds the last `(` before a position that is not followed by `.`, or reports that there is none |
| Lines.SplitCallShape | translate-c.py:148 | a successful split gives `a(b)c` with no `)` in `c`, no `(` in `b` that opens a call, and `b` not starting with `.` |
| Lines.CallShapeIsSplit | translate-c.py:148 | every decomposition of that shape is the one the split returns, so the groups are determined by the line |
| Lines.SplitCallNone | translate-c.py:148 | the split fails if and only if the line has no decomposition of that shape |
| Lines.RewriteLines | translate-c.py:146-157 | the loop rewrites every line in place, in order, and keeps the line count |
| Lines.FnLineRewrite | translate-c.py:149-155 | a function line `a(b)c` becomes `a(` + renamed, parameter- and double-pointer-rewritten `b` + `)` + renamed and return-rewritten `c`, with `a` verbatim |
| Lines.InlineFnPointerSplit | translate-c.py:148-155 | take a declaration with a parameter that is an inline function pointer `fn (…)`, where nothing after that `(` opens a call and nothing after its `)` is a `)`. Group 1 runs up to that `fn `, so the parameters before it are copied unchanged. Only the inner parameter list and the tail are rewritten |
| Lines.FnLineWithoutCall | translate-c.py:149 | a function line that does not split is left as it is |
| Lines.OtherLineUnchanged | translate-c.py:146-157 | a line that is neither a function line nor an alias line passes through |
| Lines.FnLineStaysFnLine | translate-c.py:147-155 | a rewritten function line is still classified as a function line |
| Lines.FnPointerHead | translate-c.py:147 | a line passes the function-pointer half of the test with word `W` if and only if it starts with `pub const W = ?*const fn` |
| Lines.AliasLineIsAlias | translate-c.py:156 | `pub const t_X = struct__Y…` is an alias line |
| Lines.AliasLineParts | translate-c.py:156 | every alias line is `pub const t_X = struct__Y` and a rest, with `X` and `Y` identifiers and the rest empty or starting with a non-word character, so `AliasLineRewrite` covers every alias line |
| Lines.AliasLineIsNotFn | translate-c.py:147 | an alias line is not a function line, so the alias branch is the one taken |
| Lines.AliasHeadUnmatched | translate-c.py:157 | the alias substitution finds no match in `pub const t_X =` |
| Lines.AliasLineRewrite | translate-c.py:156-157 | an alias line becomes `pub const t_X = ` + the resolved `Y`; `t_X` keeps its name |
| Header.PatchLineClears | translate-c.py:124-127 | a patched line starts with neither the bit field nor `PD_DEPRECATED`, and every other line is kept |
| Header.PatchLineIdempotent | translate-c.py:124-127 | patching a patched line changes nothing |
| Header.PatchAll | translate-c.py:123-127 | the patch keeps the line count and patches each line on its own |
| Header.PatchLines | translate-c.py:123-127 | the loop patches the header in place |
| Header.PatchHeader | translate-c.py:123-133 | patches every line of the header array in place and returns the patched lines followed by the four includes, four lines longer than the header |
| Header.HeaderLines | translate-c.py:128-135 | reading the written header back gives the patched lines and the includes, four more than the header |
| Strings.Join | translate-c.py:166-167 | the reference definition of `"\n".join`: no lines give the empty text, and one line gives that line. `SplitJoin` (its inverse) and `JoinAppend` state what the join promises |
| Strings.SplitJoin | translate-c.py:135 | splitting the join of lines without line breaks at `\n` gives the lines back |
| Strings.JoinAppend | translate-c.py:166-167 | the join of two nonempty lists is the two joins with a line break between them |
| Output.TerminatedJoin | translate-c.py:161-167 | writing each import with its own line break and then the rest is joining them all by line breaks |
| Output.CDefJoin | translate-c.py:160-167 | `cdef.zig` is the five imports, `decls` and the rewritten lines, joined by line breaks |
| Output.CDefEmpty | translate-c.py:160-167 | with no translated lines the file ends with the line break after `decls` |
| Output.CDefLines | translate-c.py:160-167 | reading `cdef.zig` back gives 5 imports, then `decls`, then the rewritten lines |
| Output.Translate | translate-c.py:123-167 | patches the header array in place and returns its text, rewrites the translated lines in place, and returns `cdef.zig` built from `decls` and the rewritten lines |

## Left out

- Header.PatchHeader: the script appends the four includes to `lines` in place (`lines += [...]`). The model patches the array in place but returns the patched lines with the includes as a new sequence, so the array's growth is not modelled.

- File reading and writing are not modelled. This covers `/usr/include/m_pd.h`, the
  scratch `m_pd.h`, `cdef.zig`, and the `os.remove` of the scratch file. The header lines
  come in as an array, and the two file texts are returned.
- The `zig translate-c` subprocess is not modelled. Its output lines are an input array
  of `Output.Translate`.
- `str.splitlines` is not modelled. The lines are given already split. `Strings.SplitLines`
  splits at `\n` only: it is used to read the written texts back, and it does not treat
  `\r`, form feeds or other Unicode line boundaries as breaks.
- `\w` is restricted to ASCII letters, digits and `_`; Python's `\w` on `str` also
  matches other Unicode letters and digits.
- The general regular-expression engine is not modelled. Each of the script's patterns
  is written out as its own recogniser.
- `Lines.SplitCall`: the `.` of `(.*)\((?!\.)(.*)\)(.*)` matches `\n` in the model, while
  Python's `.` does not. The lines come from `str.splitlines` and hold no `\n`, so this
  makes no difference.
