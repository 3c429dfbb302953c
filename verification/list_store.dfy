/**
 The book list together with its durable record (`livres.json`). Loading
 reads the record, or starts from the empty record when there is none;
 every successful change overwrites the whole record once. The record is an
 optional `Library` value and `writes` counts the overwrites, so that the
 file system stays outside the model.
 */
module ListStore {
  import opened Optional
  import opened Titles
  import opened Seqs
  import opened Books

  /** The in-memory record, the durable record (absent until the first save)
      and the number of saves performed so far. */
  datatype Store = Store(data: Library, record: Option<Library>, writes: nat)

  /** What reading the durable record yields (`charger_livres`): its contents,
      or the empty record when none exists. */
  function Restore(record: Option<Library>): Library {
    match record
    case None => Empty()
    case Some(lib) => lib
  }

  /** Reloading the durable record would give back the in-memory record. */
  predicate Consistent(st: Store) {
    Restore(st.record) == st.data
  }

  /** `charger_livres` at start-up: no save has happened yet, and a missing
      record is not created by loading. */
  function Load(record: Option<Library>): (st: Store)
    ensures Consistent(st)
    ensures st.record == record && st.writes == 0
    ensures record.None? ==> st.data.pool == [] && st.data.archive == []
  {
    Store(Restore(record), record, 0)
  }

  /** `sauvegarder_livres`: one whole-record overwrite with the in-memory state,
      whatever the record held before. */
  function Save(st: Store): (r: Store)
    ensures r.record == Some(st.data)
    ensures Consistent(r)
    ensures r.data == st.data && r.writes == st.writes + 1
  {
    Store(st.data, Some(st.data), st.writes + 1)
  }

  /** `ajouter_livre(data, input)`: an accepted title is saved once; a rejected
      one changes nothing and is not saved. */
  function AddBook(st: Store, input: string): (r: (bool, Store))
    ensures r.0 == Add(st.data, input).ok
    ensures r.1.data == Add(st.data, input).lib
    ensures r.1.writes == st.writes + (if r.0 then 1 else 0)
    ensures r.0 ==> r.1.record == Some(r.1.data) && Consistent(r.1)
    ensures !r.0 ==> r.1 == st
  {
    var a := Add(st.data, input);
    if a.ok then (true, Save(st.(data := a.lib))) else (false, st)
  }

  /** `supprimer_livre(data, title)`: a title on the wheel is archived and the
      record saved once; any other argument changes nothing and saves
      nothing. */
  function RemoveBook(st: Store, title: string): (r: Store)
    ensures r.data == Remove(st.data, title)
    ensures r.writes == st.writes + (if title in st.data.pool then 1 else 0)
    ensures title in st.data.pool ==> r.record == Some(r.data) && Consistent(r)
    ensures title !in st.data.pool ==> r == st
  {
    if title in st.data.pool then Save(st.(data := Remove(st.data, title))) else st
  }

  /** `reinitialiser_liste(data)`: always saves once, even when the archive
      was already empty. */
  function ResetBooks(st: Store): (r: Store)
    ensures r.data == Reset(st.data)
    ensures r.writes == st.writes + 1
    ensures r.record == Some(r.data) && Consistent(r)
  {
    Save(st.(data := Reset(st.data)))
  }

  // ---------------------------------------------------------------------
  // Sessions: any sequence of user actions
  // ---------------------------------------------------------------------

  /** The three actions the interface offers on the list. */
  datatype Op = AddTitle(input: string) | RemoveTitle(title: string) | ResetAll

  function Step(st: Store, op: Op): Store {
    match op
    case AddTitle(input) => AddBook(st, input).1
    case RemoveTitle(title) => RemoveBook(st, title)
    case ResetAll => ResetBooks(st)
  }

  /** The store after performing `ops` in order. */
  function Run(st: Store, ops: seq<Op>): Store
    decreases |ops|
  {
    if ops == [] then st else Run(Step(st, ops[0]), ops[1..])
  }

  /** One action keeps the invariants and the durable record in step with
      memory; it saves at most once; titles are only ever added, never lost. */
  lemma StepPreserves(st: Store, op: Op)
    requires Valid(st.data) && Consistent(st)
    ensures Valid(Step(st, op).data) && Consistent(Step(st, op))
    ensures Step(st, op).writes <= st.writes + 1
    ensures multiset(Catalogue(st.data)) <= multiset(Catalogue(Step(st, op).data))
  {
    match op
    case AddTitle(input) =>
      AddPreservesValid(st.data, input);
    case RemoveTitle(title) =>
      RemovePreservesValid(st.data, title);
    case ResetAll =>
      ResetPreservesValid(st.data);
  }

  /** Any sequence of actions keeps the invariants and the durable record in
      step with memory, performs at most one save per action, and never loses
      a title. */
  lemma {:induction false} RunPreserves(st: Store, ops: seq<Op>)
    requires Valid(st.data) && Consistent(st)
    ensures Valid(Run(st, ops).data) && Consistent(Run(st, ops))
    ensures Run(st, ops).writes <= st.writes + |ops|
    ensures multiset(Catalogue(st.data)) <= multiset(Catalogue(Run(st, ops).data))
    decreases |ops|
  {
    if ops != [] {
      StepPreserves(st, ops[0]);
      RunPreserves(Step(st, ops[0]), ops[1..]);
    }
  }

  /** Starting from a missing record, every reachable state satisfies the
      invariants and matches what a reload would give. */
  lemma FreshSessionsStayValid(ops: seq<Op>)
    ensures Valid(Run(Load(None), ops).data)
    ensures Consistent(Run(Load(None), ops))
  {
    EmptyValid();
    RunPreserves(Load(None), ops);
  }

  /** Confirming the title the wheel stopped on: whichever title of the
      wheel comes back, it leaves the wheel for the end of the archive with
      exactly one save, and the number of titles is unchanged. */
  lemma ConfirmSelected(st: Store, title: Title)
    requires Valid(st.data)
    requires title in st.data.pool
    ensures var r := RemoveBook(st, title);
            && title !in r.data.pool
            && r.data.archive == st.data.archive + [title]
            && r.writes == st.writes + 1
            && Count(r.data) == Count(st.data)
  {
    RemoveMovesTitle(st.data, title);
  }

  /** The walk-through of a first session: add "Dune", add it again, archive
      it twice, reset, then try a blank title. */
  lemma DuneSession()
    ensures var s0 := Load(None);
            var a1 := AddBook(s0, "Dune");
            var a2 := AddBook(a1.1, "Dune");
            var s3 := RemoveBook(a2.1, "Dune");
            var s4 := RemoveBook(s3, "Dune");
            var s5 := ResetBooks(s4);
            var a6 := AddBook(s5, "  ");
            && a1.0 && a1.1.data == Library(["Dune"], [])
            && !a2.0 && a2.1 == a1.1
            && s3.data == Library([], ["Dune"])
            && s4 == s3
            && s5.data == Library(["Dune"], [])
            && !a6.0 && a6.1 == s5
            && a6.1.writes == 3
  {
    var dune := "Dune";
    var s0 := Load(None);
    assert TrimStart(dune) == 0 && TrimEnd(dune) == |dune|;
    assert Trim(dune) == dune[0..|dune|] == dune;
    var a1 := AddBook(s0, dune);
    assert a1.0 && a1.1.data == Library([dune], []) && a1.1.writes == 1;
    var a2 := AddBook(a1.1, dune);
    assert !a2.0;
    var s3 := RemoveBook(a2.1, dune);
    assert |RemoveFirst([dune], dune)| == 0;
    assert s3.data == Library([], [dune]) && s3.writes == 2;
    var s4 := RemoveBook(s3, dune);
    var s5 := ResetBooks(s4);
    assert s5.data == Library([dune], []) && s5.writes == 3;
    assert AllSpace("  ");
    AddRejectsBlank(s5.data, "  ");
  }
}
