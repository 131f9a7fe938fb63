/** The rows of the `aligned_reads` table and the ways a run can fail. */
module Records {

  /** One sequencing library: its name and its read counts on the two genomes. */
  datatype Library = Library(name: string, scer: int, spom: int)

  /** `rep4_counts.log` (S. cerevisiae) or `rep4_spikein_counts.log` (S. pombe). */
  datatype Log = Experimental | SpikeIn

  datatype Failure =
    | MissingLine(log: Log, line: nat)      // IndexError on `content[i]`
    | NotAnInteger(log: Log, line: nat)     // ValueError from `int()`
    | ReferenceNotInput(row: nat)           // KeyError on `norm[row]`

  /** The number of libraries the script reads: `range(0, 32, 2)`. */
  const RecordCount: nat := 16

  function Names(t: seq<Library>): (names: seq<string>)
    ensures |names| == |t| && forall i :: 0 <= i < |t| ==> names[i] == t[i].name
  {
    seq(|t|, i requires 0 <= i < |t| => t[i].name)
  }
}
