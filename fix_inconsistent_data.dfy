/**
 * The one-off repair of rows whose `classification` text is set while the boolean
 * `es_accidente_transito` is still NULL: the boolean becomes `classification == "ACCIDENTE"`.
 */
module FixInconsistentData {
  import opened Wrappers
  import opened Seqs
  import opened Noticias

  /** The rows the repair selects: a classification and no boolean. */
  predicate Inconsistent(n: Noticia)
  {
    n.classification.Some? && n.esAccidenteTransito.None?
  }

  /** A row after the repair. */
  function Repaired(n: Noticia): (r: Noticia)
  {
    if Inconsistent(n) then n.(esAccidenteTransito := Some(n.classification.value == "ACCIDENTE")) else n
  }

  /** The table after the repair. */
  function AfterRepair(table: seq<Noticia>): (t: seq<Noticia>)
    ensures |t| == |table|
  {
    seq(|table|, k requires 0 <= k < |table| => Repaired(table[k]))
  }

  /** `fix_inconsistent_data`: sets the boolean on each selected row and counts them. */
  method FixInconsistent(table: seq<Noticia>) returns (newTable: seq<Noticia>, count: nat)
    ensures newTable == AfterRepair(table)
    ensures count == Count(table, Inconsistent)
  {
    newTable := table;
    count := 0;
    for i := 0 to |table|
      invariant |newTable| == |table|
      invariant forall k | 0 <= k < i :: newTable[k] == Repaired(table[k])
      invariant forall k | i <= k < |table| :: newTable[k] == table[k]
      invariant count == Count(table[..i], Inconsistent)
    {
      assert table[..i + 1] == table[..i] + [table[i]];
      CountAppend(table[..i], [table[i]], Inconsistent);
      if Inconsistent(table[i]) {
        var n := table[i];
        newTable := newTable[i := n.(esAccidenteTransito := Some(n.classification.value == "ACCIDENTE"))];
        count := count + 1;
      }
    }
    assert table[..|table|] == table;
  }

  /**
   * A selected row gets `classification == "ACCIDENTE"` as its boolean, every other row
   * stays as it was, and no other column changes.
   */
  lemma RepairWrites(table: seq<Noticia>, k: int)
    requires 0 <= k < |table|
    ensures var n, r := table[k], AfterRepair(table)[k];
      && (Inconsistent(n) ==> r.esAccidenteTransito == Some(n.classification == Some("ACCIDENTE")))
      && (!Inconsistent(n) ==> r == n)
      && r == n.(esAccidenteTransito := r.esAccidenteTransito)
  {
  }

  /** Right after a repair nothing is inconsistent, so a second run changes nothing. */
  lemma {:induction false} RepairIdempotent(table: seq<Noticia>)
    ensures Count(AfterRepair(table), Inconsistent) == 0
    ensures AfterRepair(AfterRepair(table)) == AfterRepair(table)
  {
    var t := AfterRepair(table);
    CountZero(t, Inconsistent);
  }
}
