/** The patch applied to `m_pd.h` before it is handed to the C translator: the bit field
    the translator rejects becomes a whole byte, deprecation macros are blanked, and four
    more headers are included at the end. */
module Header {
  import opened Strings

  const BitField := "    unsigned int te_type:2;"
  const ByteField := "    unsigned char te_type;"
  const Deprecated := "PD_DEPRECATED"

  /** The headers appended after the last line of `m_pd.h`. */
  const Includes: seq<string> := [
    "#include <pd/m_imp.h>",
    "#include <pd/g_canvas.h>",
    "#include <pd/g_all_guis.h>",
    "#include <pd/s_stuff.h>"
  ]

  /** One line of the header after the patch. The bit-field test is made first. */
  function PatchLine(line: string): string {
    if StartsWith(line, BitField) then ByteField
    else if StartsWith(line, Deprecated) then ""
    else line
  }

  /** A patched line starts with neither trigger, and any other line is kept as it is. */
  lemma PatchLineClears(line: string)
    ensures !StartsWith(PatchLine(line), BitField)
    ensures !StartsWith(PatchLine(line), Deprecated)
    ensures !StartsWith(line, BitField) && !StartsWith(line, Deprecated) ==>
              PatchLine(line) == line
  {
    FirstCharMismatch(ByteField, Deprecated);
    assert |BitField| > |ByteField|;
  }

  /** Patching a patched header changes nothing more. */
  lemma PatchLineIdempotent(line: string)
    ensures PatchLine(PatchLine(line)) == PatchLine(line)
  {
    PatchLineClears(line);
    PatchLineClears(PatchLine(line));
  }

  /** A patched line holds a line break only when the original did. */
  lemma PatchLineNoNewline(line: string)
    requires NoNewline(line)
    ensures NoNewline(PatchLine(line))
  {
  }

  /** Every line of a header, patched. */
  function PatchAll(lines: seq<string>): (r: seq<string>)
    ensures |r| == |lines|
    ensures forall i :: 0 <= i < |lines| ==> r[i] == PatchLine(lines[i])
  {
    if lines == [] then [] else [PatchLine(lines[0])] + PatchAll(lines[1..])
  }

  /** The header as it is written out: the patched lines and the includes, joined by line
      breaks. */
  function HeaderText(lines: seq<string>): string {
    Join(PatchAll(lines) + Includes)
  }

  /** The patch loop over the lines of the header, in place. */
  method PatchLines(lines: array<string>)
    modifies lines
    ensures lines[..] == PatchAll(old(lines[..]))
  {
    var i := 0;
    while i < lines.Length
      invariant 0 <= i <= lines.Length
      invariant forall k :: 0 <= k < i ==> lines[k] == PatchLine(old(lines[k]))
      invariant forall k :: i <= k < lines.Length ==> lines[k] == old(lines[k])
    {
      if StartsWith(lines[i], BitField) {
        lines[i] := ByteField;
      } else if StartsWith(lines[i], Deprecated) {
        lines[i] := "";
      }
      i := i + 1;
    }
  }

  /** Patches the header in place and appends the includes: the result has four lines
      more than the header and ends with the includes. */
  method PatchHeader(lines: array<string>) returns (out: seq<string>)
    modifies lines
    ensures lines[..] == PatchAll(old(lines[..]))
    ensures out == PatchAll(old(lines[..])) + Includes
    ensures |out| == lines.Length + 4
    ensures out[|out| - 4..] == Includes
  {
    PatchLines(lines);
    out := lines[..] + Includes;
  }

  /** Reading the written header back line by line gives the patched lines followed by
      the includes, as long as no line held a line break. */
  lemma HeaderLines(lines: seq<string>)
    requires forall k :: 0 <= k < |lines| ==> NoNewline(lines[k])
    ensures SplitLines(HeaderText(lines)) == PatchAll(lines) + Includes
    ensures |SplitLines(HeaderText(lines))| == |lines| + 4
  {
    var all := PatchAll(lines) + Includes;
    forall k | 0 <= k < |all| ensures NoNewline(all[k]) {
      if k < |lines| {
        PatchLineNoNewline(lines[k]);
      } else {
        IncludesNoNewline(k - |lines|);
      }
    }
    SplitJoin(all);
  }

  lemma IncludesNoNewline(k: nat)
    requires k < |Includes|
    ensures NoNewline(Includes[k])
  {
  }
}
