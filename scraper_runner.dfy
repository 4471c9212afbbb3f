/**
 * The batch runner: it selects the rows that still lack a verdict (or every row when
 * forced), writes the four per-strategy verdicts on each of them and keeps a tally of
 * accidents and non-accidents per strategy. It also adds up what the scrapers saved.
 *
 * The table is a value: the runner takes the rows and returns the rows as committed.
 * The verdicts on a row are `RowVerdicts`: the four classifiers under a complete threshold table.
 */
module ScraperRunner {
  import opened Wrappers
  import opened Seqs
  import opened ClassifierConfig
  import opened Classifiers
  import opened Noticias

  datatype Strategy = Simple | Stemmer | Lemmatizer | MlWeighted

  /** `custom_thresholds or DEFAULT_THRESHOLDS`: a missing or empty table means the defaults. */
  function EffectiveThresholds(custom: Option<map<string, int>>): (th: map<string, int>)
    ensures custom.Some? && |custom.value| > 0 ==> th == custom.value
    ensures custom.None? || |custom.value| == 0 ==> th == DefaultThresholds
  {
    if custom.Some? && |custom.value| > 0 then custom.value else DefaultThresholds
  }

  /** The table has a threshold for every strategy. */
  predicate HasAllKeys(th: map<string, int>)
  {
    "simple" in th && "stemmer" in th && "lemmatizer" in th && "ml_weighted" in th
  }

  /** The first strategy key, in the order the loop reads them, that the table lacks. */
  function MissingKey(th: map<string, int>): (r: Option<string>)
    ensures r.None? <==> HasAllKeys(th)
    ensures r.Some? ==> r.value !in th && r.value in DefaultThresholds
  {
    if "simple" !in th then Some("simple")
    else if "stemmer" !in th then Some("stemmer")
    else if "lemmatizer" !in th then Some("lemmatizer")
    else if "ml_weighted" !in th then Some("ml_weighted")
    else None
  }

  /**
   * The weighted verdict as the runner obtains it: default terms and weights, so the
   * weighted classifier never fails.
   */
  function MlVerdict(titulo: string, contenido: string, threshold: int, f: Foreign): (b: bool)
    ensures IsAccidentMlWeighted(titulo, contenido, None, None, Some(threshold), f.exclusion) == Ok(b)
  {
    DefaultWeightedNeverFails(ClassifierText(titulo, contenido));
    IsAccidentMlWeighted(titulo, contenido, None, None, Some(threshold), f.exclusion).value
  }

  /** The four verdicts on one row. */
  datatype Verdicts = Verdicts(simple: bool, stemmer: bool, lemmatizer: bool, mlWeighted: bool)
  {
    function Of(s: Strategy): bool
    {
      match s
      case Simple => simple
      case Stemmer => stemmer
      case Lemmatizer => lemmatizer
      case MlWeighted => mlWeighted
    }
  }

  /** A threshold table with a threshold for every strategy. */
  type Thresholds = th: map<string, int> | HasAllKeys(th) witness DefaultThresholds

  /** The default table, which has every key. */
  const Defaults: Thresholds := DefaultThresholds

  /** The verdicts the runner computes: default terms, the table's threshold for each strategy. */
  function RowVerdicts(th: Thresholds, f: Foreign, n: Noticia): Verdicts
  {
      Verdicts(
        IsAccidentSimple(n.titulo, n.contenido, None, Some(th["simple"])),
        IsAccidentStemmer(n.titulo, n.contenido, None, Some(th["stemmer"]), f),
        IsAccidentLemmatizer(n.titulo, n.contenido, None, Some(th["lemmatizer"]), f),
        MlVerdict(n.titulo, n.contenido, th["ml_weighted"], f))
  }

  /** The verdicts on every row of a table, in table order. */
  function TableVerdicts(rows: seq<Noticia>, th: Thresholds, f: Foreign): (vs: seq<Verdicts>)
    ensures |vs| == |rows|
  {
    seq(|rows|, k requires 0 <= k < |rows| => RowVerdicts(th, f, rows[k]))
  }

  /** A row some strategy has not classified yet: one of the four columns is null. */
  predicate Pending(n: Noticia)
  {
    n.esAccidenteSimple.None? || n.esAccidenteStem.None? || n.esAccidenteLemma.None? || n.esAccidenteMl.None?
  }

  predicate Picked(n: Noticia, force: bool)
  {
    force || Pending(n)
  }

  /** The rows the query returns, in table order. */
  function Selected(rows: seq<Noticia>, force: bool): (sel: seq<Noticia>)
    ensures |sel| <= |rows|
  {
    if |rows| == 0 then []
    else
      var init := Selected(rows[..|rows| - 1], force);
      if Picked(rows[|rows| - 1], force) then init + [rows[|rows| - 1]] else init
  }

  /** Every selected row is a picked row of the table. */
  lemma {:induction false} SelectedSound(rows: seq<Noticia>, force: bool, k: int)
    requires 0 <= k < |Selected(rows, force)|
    ensures Picked(Selected(rows, force)[k], force) && Selected(rows, force)[k] in rows
    decreases |rows|
  {
    var init := rows[..|rows| - 1];
    if k < |Selected(init, force)| {
      SelectedSound(init, force, k);
      assert Selected(rows, force)[k] == Selected(init, force)[k];
    }
  }

  /** Every picked row is selected, so the selection is exactly the picked rows. */
  lemma {:induction false} SelectedComplete(rows: seq<Noticia>, force: bool, k: int)
    requires 0 <= k < |rows| && Picked(rows[k], force)
    ensures rows[k] in Selected(rows, force)
    decreases |rows|
  {
    if k < |rows| - 1 {
      SelectedComplete(rows[..|rows| - 1], force, k);
    }
  }

  /** Nothing is selected exactly when no row is picked. */
  lemma {:induction false} SelectedEmpty(rows: seq<Noticia>, force: bool)
    ensures |Selected(rows, force)| == 0 <==> forall k | 0 <= k < |rows| :: !Picked(rows[k], force)
    decreases |rows|
  {
    if exists k | 0 <= k < |rows| :: Picked(rows[k], force) {
      var k :| 0 <= k < |rows| && Picked(rows[k], force);
      SelectedComplete(rows, force, k);
    } else if |rows| > 0 {
      var init := rows[..|rows| - 1];
      assert forall k | 0 <= k < |init| :: init[k] == rows[k];
      SelectedEmpty(init, force);
    }
  }

  /** A forced run selects every row. */
  lemma {:induction false} ForcedSelectsAll(rows: seq<Noticia>)
    ensures Selected(rows, true) == rows
    decreases |rows|
  {
    if |rows| > 0 {
      ForcedSelectsAll(rows[..|rows| - 1]);
      assert rows == rows[..|rows| - 1] + [rows[|rows| - 1]];
    }
  }

  /** How many selected rows a strategy flags as accidents, `vs` holding each row's verdicts. */
  function Accidents(rows: seq<Noticia>, force: bool, s: Strategy, vs: seq<Verdicts>): (n: nat)
    requires |vs| == |rows|
    ensures n <= |Selected(rows, force)|
  {
    if |rows| == 0 then 0
    else
      var last := |rows| - 1;
      Accidents(rows[..last], force, s, vs[..last]) + (if Picked(rows[last], force) && vs[last].Of(s) then 1 else 0)
  }

  /** The row with the four verdict columns written. */
  function Classified(n: Noticia, vs: Verdicts): Noticia
  {
    n.(esAccidenteSimple := Some(vs.simple), esAccidenteStem := Some(vs.stemmer),
       esAccidenteLemma := Some(vs.lemmatizer), esAccidenteMl := Some(vs.mlWeighted))
  }

  /** A row as a run leaves it. */
  function Reclassify(n: Noticia, force: bool, v: Verdicts): Noticia
  {
    if Picked(n, force) then Classified(n, v) else n
  }

  /** The table after a successful run, `vs` holding each row's verdicts. */
  function AfterRun(rows: seq<Noticia>, force: bool, vs: seq<Verdicts>): (r: seq<Noticia>)
    requires |vs| == |rows|
    ensures |r| == |rows|
  {
    seq(|rows|, k requires 0 <= k < |rows| => Reclassify(rows[k], force, vs[k]))
  }

  /**
   * A run writes, on each selected row, each strategy's verdict in that strategy's column;
   * it leaves the unselected rows alone and never writes any other column, in particular
   * not `es_accidente_transito`.
   */
  lemma AfterRunWritesVerdicts(rows: seq<Noticia>, force: bool, vs: seq<Verdicts>, k: int)
    requires |vs| == |rows| && 0 <= k < |rows|
    ensures var r := AfterRun(rows, force, vs)[k];
      var n := rows[k];
      && (Picked(n, force) ==>
            && r.esAccidenteSimple == Some(vs[k].simple) && r.esAccidenteStem == Some(vs[k].stemmer)
            && r.esAccidenteLemma == Some(vs[k].lemmatizer) && r.esAccidenteMl == Some(vs[k].mlWeighted))
      && (!Picked(n, force) ==> r == n)
      && r.(esAccidenteSimple := n.esAccidenteSimple, esAccidenteStem := n.esAccidenteStem,
            esAccidenteLemma := n.esAccidenteLemma, esAccidenteMl := n.esAccidenteMl) == n
      && r.esAccidenteTransito == n.esAccidenteTransito
  {
  }

  /** The runner's verdicts on a row are the four classifiers on it, with the default terms. */
  lemma RowVerdictsAreClassifiers(th: Thresholds, f: Foreign, rows: seq<Noticia>, k: int)
    requires 0 <= k < |rows|
    ensures var vs := TableVerdicts(rows, th, f)[k];
      var n := rows[k];
      && vs.simple == IsAccidentSimple(n.titulo, n.contenido, None, Some(th["simple"]))
      && vs.stemmer == IsAccidentStemmer(n.titulo, n.contenido, None, Some(th["stemmer"]), f)
      && vs.lemmatizer == IsAccidentLemmatizer(n.titulo, n.contenido, None, Some(th["lemmatizer"]), f)
      && vs.mlWeighted == MlVerdict(n.titulo, n.contenido, th["ml_weighted"], f)
  {
  }

  /** After a successful run no row is pending, so a second unforced run selects nothing. */
  lemma SecondRunSelectsNothing(rows: seq<Noticia>, force: bool, vs: seq<Verdicts>)
    requires |vs| == |rows|
    ensures Selected(AfterRun(rows, force, vs), false) == []
  {
    var after := AfterRun(rows, force, vs);
    forall k | 0 <= k < |after|
      ensures !Picked(after[k], false)
    {
      if Picked(rows[k], force) {
        assert after[k] == Classified(rows[k], vs[k]);
      }
    }
    SelectedEmpty(after, false);
  }

  lemma AfterRunNothingPicked(rows: seq<Noticia>, force: bool, vs: seq<Verdicts>)
    requires |vs| == |rows| && |Selected(rows, force)| == 0
    ensures AfterRun(rows, force, vs) == rows
  {
    SelectedEmpty(rows, force);
  }

  /** The tally of one strategy. */
  datatype Votes = Votes(accidentes: nat, noAccidentes: nat)

  /** `resultados`: the votes of each strategy. */
  datatype Tally = Tally(simple: Votes, stemmer: Votes, lemmatizer: Votes, mlWeighted: Votes)
  {
    function Of(s: Strategy): Votes
    {
      match s
      case Simple => simple
      case Stemmer => stemmer
      case Lemmatizer => lemmatizer
      case MlWeighted => mlWeighted
    }
  }

  const NoVotes := Tally(Votes(0, 0), Votes(0, 0), Votes(0, 0), Votes(0, 0))

  /** One more accident or one more non-accident. */
  function Bump(v: Votes, accident: bool): (r: Votes)
    ensures r.accidentes + r.noAccidentes == v.accidentes + v.noAccidentes + 1
    ensures r.accidentes == if accident then v.accidentes + 1 else v.accidentes
  {
    if accident then v.(accidentes := v.accidentes + 1) else v.(noAccidentes := v.noAccidentes + 1)
  }

  /** The votes of every strategy agree with its accident count, out of `processed` verdicts. */
  predicate TallyAgrees(t: Tally, rows: seq<Noticia>, force: bool, vs: seq<Verdicts>, processed: nat)
    requires |vs| == |rows|
  {
    forall s: Strategy ::
      t.Of(s).accidentes == Accidents(rows, force, s, vs) && t.Of(s).accidentes + t.Of(s).noAccidentes == processed
  }

  /**
   * `run_classifiers`. The outcome is the number of rows processed, or the missing threshold
   * key that makes the first row raise (then nothing is committed). On success every strategy's
   * accidents and non-accidents add up to the number of selected rows.
   */
  method RunClassifiers(table: seq<Noticia>, custom: Option<map<string, int>>, force: bool, f: Foreign)
    returns (outcome: Result<nat>, newTable: seq<Noticia>, tally: Tally)
    ensures var th := EffectiveThresholds(custom);
      && (|Selected(table, force)| == 0 ==> outcome == Ok(0) && newTable == table && tally == NoVotes)
      && (|Selected(table, force)| > 0 && !HasAllKeys(th) ==>
            outcome == Err(MissingKey(th).value) && newTable == table && tally == NoVotes)
      && (|Selected(table, force)| > 0 && HasAllKeys(th) ==>
            var vs := TableVerdicts(table, th, f);
            && outcome == Ok(|Selected(table, force)|)
            && newTable == AfterRun(table, force, vs)
            && TallyAgrees(tally, table, force, vs, |Selected(table, force)|))
  {
    var th := EffectiveThresholds(custom);
    tally := NoVotes;
    if |Selected(table, force)| == 0 {
      return Ok(0), table, tally;
    }
    var missing := MissingKey(th);
    if missing.Some? {
      return Err(missing.value), table, tally;
    }
    var processed;
    processed, newTable, tally := ClassifyRows(table, force, th, f);
    outcome := Ok(processed);
  }

  /** The loop of `run_classifiers` over the selected rows, once the thresholds are known. */
  method ClassifyRows(table: seq<Noticia>, force: bool, th: Thresholds, f: Foreign)
    returns (processed: nat, newTable: seq<Noticia>, tally: Tally)
    ensures processed == |Selected(table, force)|
    ensures newTable == AfterRun(table, force, TableVerdicts(table, th, f))
    ensures TallyAgrees(tally, table, force, TableVerdicts(table, th, f), processed)
  {
    ghost var vs := TableVerdicts(table, th, f);
    tally := NoVotes;
    newTable := [];
    processed := 0;
    var i := 0;
    while i < |table|
      invariant 0 <= i <= |table|
      invariant newTable == AfterRun(table[..i], force, vs[..i])
      invariant processed == |Selected(table[..i], force)|
      invariant TallyAgrees(tally, table[..i], force, vs[..i], processed)
    {
      AfterRunStep(table, vs, i, force);
      TallyStep(table, vs, i, force, tally, processed);
      var row;
      tally, processed, row := ClassifyRow(table[i], force, th, f, tally, processed, vs[i]);
      newTable := newTable + [row];
      i := i + 1;
    }
    assert table[..i] == table && vs[..i] == vs;
  }

  /** One row of the loop: its verdicts, its counts and the row as written back. */
  method ClassifyRow(n: Noticia, force: bool, th: Thresholds, f: Foreign, tally: Tally, processed: nat, ghost v: Verdicts)
    returns (tally': Tally, processed': nat, row: Noticia)
    requires v == RowVerdicts(th, f, n)
    ensures row == Reclassify(n, force, v)
    ensures Picked(n, force) ==> tally' == Counted(tally, v) && processed' == processed + 1
    ensures !Picked(n, force) ==> tally' == tally && processed' == processed
  {
    var verdicts := RowVerdicts(th, f, n);
    tally', processed' := tally, processed;
    if Picked(n, force) {
      tally' := Counted(tally, verdicts);
      processed' := processed + 1;
    }
    row := Reclassify(n, force, verdicts);
  }

  /** The four `resultados[...]` increments for one row. */
  function Counted(t: Tally, vs: Verdicts): (r: Tally)
    ensures forall s: Strategy :: r.Of(s) == Bump(t.Of(s), vs.Of(s))
  {
    Tally(Bump(t.simple, vs.simple), Bump(t.stemmer, vs.stemmer),
          Bump(t.lemmatizer, vs.lemmatizer), Bump(t.mlWeighted, vs.mlWeighted))
  }

  /** Selection size and tally move on together by one row. */
  lemma TallyStep(table: seq<Noticia>, vs: seq<Verdicts>, i: int, force: bool, t: Tally, processed: nat)
    requires |vs| == |table| && 0 <= i < |table|
    requires processed == |Selected(table[..i], force)| && TallyAgrees(t, table[..i], force, vs[..i], processed)
    ensures Picked(table[i], force) ==>
      && processed + 1 == |Selected(table[..i + 1], force)|
      && TallyAgrees(Counted(t, vs[i]), table[..i + 1], force, vs[..i + 1], processed + 1)
    ensures !Picked(table[i], force) ==>
      processed == |Selected(table[..i + 1], force)| && TallyAgrees(t, table[..i + 1], force, vs[..i + 1], processed)
  {
    assert table[..i + 1][..i] == table[..i];
    assert vs[..i + 1][..i] == vs[..i];
  }

  lemma AfterRunStep(table: seq<Noticia>, vs: seq<Verdicts>, i: int, force: bool)
    requires |vs| == |table| && 0 <= i < |table|
    ensures AfterRun(table[..i + 1], force, vs[..i + 1]) == AfterRun(table[..i], force, vs[..i]) + [Reclassify(table[i], force, vs[i])]
  {
    var a := AfterRun(table[..i + 1], force, vs[..i + 1]);
    var b := AfterRun(table[..i], force, vs[..i]) + [Reclassify(table[i], force, vs[i])];
    assert |a| == |b|;
    forall k | 0 <= k < |a|
      ensures a[k] == b[k]
    {
    }
  }

  /** `run_classifiers_with_custom_thresholds`: an unforced run with the caller's table. */
  method RunClassifiersWithCustomThresholds(table: seq<Noticia>, thresholds: map<string, int>, f: Foreign)
    returns (outcome: Result<nat>, newTable: seq<Noticia>, tally: Tally)
    ensures HasAllKeys(thresholds) ==>
      outcome == Ok(|Selected(table, false)|) && newTable == AfterRun(table, false, TableVerdicts(table, thresholds, f))
    ensures |thresholds| == 0 ==>
      outcome == Ok(|Selected(table, false)|) && newTable == AfterRun(table, false, TableVerdicts(table, Defaults, f))
    ensures outcome.Err? <==> |Selected(table, false)| > 0 && |thresholds| > 0 && !HasAllKeys(thresholds)
  {
    outcome, newTable, tally := RunClassifiers(table, Some(thresholds), false, f);
    if |Selected(table, false)| == 0 {
      assert outcome == Ok(0) && newTable == table;
      AfterRunNothingPicked(table, false, TableVerdicts(table, Defaults, f));
      if HasAllKeys(thresholds) {
        AfterRunNothingPicked(table, false, TableVerdicts(table, thresholds, f));
      }
    } else if |thresholds| == 0 {
      assert EffectiveThresholds(Some(thresholds)) == DefaultThresholds;
    } else {
      assert EffectiveThresholds(Some(thresholds)) == thresholds;
    }
  }

  /** `force_reclassify_all`: every row gets the four verdicts under the default thresholds. */
  method ForceReclassifyAll(table: seq<Noticia>, f: Foreign)
    returns (outcome: Result<nat>, newTable: seq<Noticia>, tally: Tally)
    ensures outcome == Ok(|table|)
    ensures |newTable| == |table|
    ensures forall k | 0 <= k < |table| ::
      newTable[k] == Classified(table[k], TableVerdicts(table, Defaults, f)[k])
  {
    ForcedSelectsAll(table);
    outcome, newTable, tally := RunClassifiers(table, None, true, f);
    if |table| == 0 {
      assert newTable == table;
    }
  }

  /**
   * `run_all_scrapers`: the scrapers' saved counts add up to the total, then the unforced
   * classifier run follows on the table the scrapers left.
   */
  method RunAllScrapers(saved: seq<int>, table: seq<Noticia>, f: Foreign)
    returns (total: int, clasificadas: Result<nat>, newTable: seq<Noticia>)
    ensures total == Sum(saved)
    ensures clasificadas == Ok(|Selected(table, false)|)
    ensures newTable == AfterRun(table, false, TableVerdicts(table, Defaults, f))
  {
    total := 0;
    var i := 0;
    while i < |saved|
      invariant 0 <= i <= |saved|
      invariant total == Sum(saved[..i])
    {
      SumAppend(saved[..i], [saved[i]]);
      assert saved[..i + 1] == saved[..i] + [saved[i]];
      total := total + saved[i];
      i := i + 1;
    }
    assert saved[..i] == saved;
    var tally;
    clasificadas, newTable, tally := RunClassifiers(table, None, false, f);
    if |Selected(table, false)| == 0 {
      AfterRunNothingPicked(table, false, TableVerdicts(table, Defaults, f));
    }
  }
}
