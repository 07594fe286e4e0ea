/**
 * Turning a tab-separated expression dump, read as a list of lines, into a
 * header and data rows. The two conversion scripts,
 * scripts/Wrangling/Dataset_config/TXT_2_CSV_DF_Creation.py and
 * scripts/Final_Scripts/TCGA_Raw_Data_Processing.py, hold the same lines for
 * this step; this module models both.
 */
module RawTable {
  import opened Wrappers
  import opened Seqs
  import opened Text

  const Newline: char := '\n'
  const Tab: char := '\t'

  /** Header and data rows, as the scripts hand them to the frame constructor. */
  datatype Parsed = Parsed(columns: seq<string>, rows: seq<seq<string>>)

  /** Indexing the first line of an empty line list raises. */
  datatype ParseError = IndexError

  /**
   * `line.strip('\n').split('\t')`: one field more than the line holds tabs,
   * no field holds a tab, and the fields joined with tabs give back the line
   * without its surrounding newlines.
   */
  function Fields(line: string): (fields: seq<string>)
    ensures |fields| == Count(line, Tab) + 1
    ensures forall i :: 0 <= i < |fields| ==> Tab !in fields[i]
    ensures Join(fields, Tab) == Strip(line, Newline)
  {
    var stripped := Strip(line, Newline);
    StripKeepsOtherCharacters(line, Newline, Tab);
    SplitPiecesHaveNoSeparator(stripped, Tab);
    JoinSplit(stripped, Tab);
    Split(stripped, Tab)
  }

  /**
   * The first line gives the header, every later line gives one data row, in
   * file order; an input without lines fails.
   */
  function ParseLines(lines: seq<string>): (r: Result<Parsed, ParseError>)
    ensures r.Err? <==> lines == []
    ensures r.Ok? ==> r.value.columns == Fields(lines[0])
    ensures r.Ok? ==> |r.value.rows| == |lines| - 1
    ensures r.Ok? ==> forall i :: 0 <= i < |r.value.rows| ==> r.value.rows[i] == Fields(lines[i + 1])
  {
    if lines == [] then Err(IndexError)
    else Ok(Parsed(Fields(lines[0]), MapSeq(lines[1..], Fields)))
  }

  /** Fields free of tabs are exactly what the line made of them splits into. */
  lemma FieldsOfJoin(fields: seq<string>)
    requires |fields| >= 1
    requires forall i :: 0 <= i < |fields| ==> Tab !in fields[i] && Newline !in fields[i]
    ensures Fields(Join(fields, Tab)) == fields
  {
    var line := Join(fields, Tab);
    JoinHasNoNewline(fields);
    StripUntouched(line, Newline);
    SplitJoin(fields, Tab);
  }

  /** A tab-join of newline-free fields holds no newline. */
  lemma {:induction false} JoinHasNoNewline(fields: seq<string>)
    requires forall i :: 0 <= i < |fields| ==> Newline !in fields[i]
    ensures Newline !in Join(fields, Tab)
  {
    if |fields| > 1 {
      JoinHasNoNewline(fields[1..]);
      assert Join(fields, Tab) == fields[0] + [Tab] + Join(fields[1..], Tab);
    }
  }

  /**
   * A line made of newline runs around tab-joined fields, the first not starting
   * and the last not ending with a newline, yields exactly those fields.
   */
  lemma FieldsOfSurrounded(pre: string, fields: seq<string>, post: string)
    requires forall k :: 0 <= k < |pre| ==> pre[k] == Newline
    requires forall k :: 0 <= k < |post| ==> post[k] == Newline
    requires |fields| >= 1 && forall i :: 0 <= i < |fields| ==> Tab !in fields[i]
    requires Join(fields, Tab) == [] || (Join(fields, Tab)[0] != Newline && Join(fields, Tab)[|Join(fields, Tab)| - 1] != Newline)
    ensures Fields(pre + Join(fields, Tab) + post) == fields
  {
    StripSurrounded(pre, Join(fields, Tab), post, Newline);
    SplitJoin(fields, Tab);
  }

  /**
   * `strip('\n')` removes only newlines at the two ends: a carriage return
   * before the line end stays in the last field.
   */
  lemma StripExample()
    ensures Fields("\n\nA\tB\r\n") == ["A", "B\r"]
  {
    var fields := ["A", "B\r"];
    var middle := Join(fields, Tab);
    assert middle == "A\tB\r";
    FieldsOfSurrounded("\n\n", fields, "\n");
    assert "\n\n" + middle + "\n" == "\n\nA\tB\r\n";
  }

  /** `strip('\n')` leaves a newline inside the text, which stays inside its field. */
  lemma InnerNewlineExample()
    ensures Fields("A\nB\tC\n") == ["A\nB", "C"]
  {
    var fields := ["A\nB", "C"];
    var middle := Join(fields, Tab);
    assert middle == "A\nB\tC";
    FieldsOfSurrounded("", fields, "\n");
    assert "" + middle + "\n" == "A\nB\tC\n";
  }
}
