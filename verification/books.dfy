/**
 The book-list record of the reading wheel (`data` in app.py): the titles
 still on the wheel (`liste_tirage`) and the titles already drawn or taken
 off (`livres_supprimes`), both kept in insertion order, together with the
 three transitions that change it.
 */
module Books {
  import opened Titles
  import opened Seqs

  /** `pool` is `liste_tirage`, `archive` is `livres_supprimes`. */
  datatype Library = Library(pool: seq<Title>, archive: seq<Title>)

  /** Outcome of an add: whether the title went in, and the new record. */
  datatype Added = Added(ok: bool, lib: Library)

  /** The record used when nothing has been saved yet. */
  function Empty(): (r: Library)
    ensures r.pool == [] && r.archive == []
  {
    Library([], [])
  }

  /** Every title the record knows about, on the wheel or archived. */
  function Known(lib: Library): set<Title> {
    set t | t in lib.pool + lib.archive
  }

  /** Number of titles held in the two lists together. */
  function Count(lib: Library): nat {
    |lib.pool| + |lib.archive|
  }

  /** All titles in one list: the wheel followed by the archive. */
  function Catalogue(lib: Library): seq<Title> {
    lib.pool + lib.archive
  }

  /** The record invariants: each list is duplicate-free, no title is in
      both, and every stored title is trimmed and non-empty. */
  predicate Valid(lib: Library) {
    && NoDup(lib.pool)
    && NoDup(lib.archive)
    && Disjoint(lib.pool, lib.archive)
    && (forall t :: t in lib.pool ==> IsTitle(t))
    && (forall t :: t in lib.archive ==> IsTitle(t))
  }

  /** `ajouter_livre`: the input is trimmed; it is appended to the wheel when
      it is non-empty and known in neither list, and rejected otherwise. */
  function Add(lib: Library, input: string): (r: Added)
    ensures r.ok <==> Trim(input) != [] && Trim(input) !in Known(lib)
    ensures r.ok ==> r.lib.pool == lib.pool + [Trim(input)] && r.lib.archive == lib.archive
    ensures !r.ok ==> r.lib == lib
  {
    var t := Trim(input);
    if t != [] && t !in lib.pool && t !in lib.archive then
      Added(true, Library(lib.pool + [t], lib.archive))
    else
      Added(false, lib)
  }

  /** `supprimer_livre`: a title on the wheel moves to the end of the archive
      (Python's `list.remove` takes its first occurrence off the wheel); any
      other argument, compared exactly and without trimming, changes
      nothing. */
  function Remove(lib: Library, title: string): (r: Library)
    ensures title in lib.pool ==> r.archive == lib.archive + [title]
    ensures title in lib.pool ==> r.pool == RemoveFirst(lib.pool, title)
    ensures title !in lib.pool ==> r == lib
    ensures multiset(Catalogue(r)) == multiset(Catalogue(lib))
    ensures Count(r) == Count(lib)
  {
    if title in lib.pool then
      Library(RemoveFirst(lib.pool, title), lib.archive + [title])
    else
      lib
  }

  /** `reinitialiser_liste`: the archive is put back on the wheel, after the
      titles already there and in its own order, and the archive is left
      empty. */
  function Reset(lib: Library): (r: Library)
    ensures r.archive == []
    ensures |r.pool| == Count(lib)
    ensures r.pool[..|lib.pool|] == lib.pool && r.pool[|lib.pool|..] == lib.archive
    ensures Catalogue(r) == Catalogue(lib)
    ensures Count(r) == Count(lib)
  {
    Library(lib.pool + lib.archive, [])
  }

  // ---------------------------------------------------------------------
  // The invariants and what they mean
  // ---------------------------------------------------------------------

  /** The invariants say exactly that the wheel followed by the archive is a
      duplicate-free list of stored titles. */
  lemma ValidIffCatalogue(lib: Library)
    ensures Valid(lib) <==>
      NoDup(Catalogue(lib)) && forall t :: t in Catalogue(lib) ==> IsTitle(t)
  {
    NoDupConcat(lib.pool, lib.archive);
  }

  /** The starting record satisfies the invariants. */
  lemma EmptyValid()
    ensures Valid(Empty())
  {
  }

  /** Under the invariants every stored title is non-empty once trimmed. */
  lemma ValidTitlesNonEmpty(lib: Library, t: Title)
    requires Valid(lib)
    requires t in Known(lib)
    ensures Trim(t) != []
  {
    assert t in lib.pool || t in lib.archive;
    assert IsTitle(t);
  }

  // ---------------------------------------------------------------------
  // Add
  // ---------------------------------------------------------------------

  /** A successful add keeps the invariants. */
  lemma AddPreservesValid(lib: Library, input: string)
    requires Valid(lib)
    ensures Valid(Add(lib, input).lib)
  {
    var r := Add(lib, input);
    if r.ok {
      var t := Trim(input);
      TrimmedIsTitle(input);
      NoDupAppend(lib.pool, t);
      assert forall x :: x in r.lib.pool ==> x in lib.pool || x == t;
    }
  }

  /** An add changes the set of known titles by the trimmed input only, and
      only when it reports success. */
  lemma AddKnown(lib: Library, input: string)
    ensures Add(lib, input).ok ==> Known(Add(lib, input).lib) == Known(lib) + {Trim(input)}
    ensures !Add(lib, input).ok ==> Known(Add(lib, input).lib) == Known(lib)
    ensures Count(Add(lib, input).lib) == Count(lib) + (if Add(lib, input).ok then 1 else 0)
  {
  }

  /** Input made only of whitespace is never added. */
  lemma AddRejectsBlank(lib: Library, input: string)
    requires AllSpace(input)
    ensures Add(lib, input) == Added(false, lib)
  {
    TrimEmptyIffAllSpace(input);
  }

  /** A title already on the wheel or in the archive is rejected even when it
      is typed with surrounding whitespace. */
  lemma AddRejectsPaddedDuplicate(lib: Library, front: string, t: Title, back: string)
    requires Valid(lib)
    requires t in Known(lib)
    requires AllSpace(front) && AllSpace(back)
    ensures Add(lib, front + t + back) == Added(false, lib)
  {
    TrimPadded(front, t, back);
  }

  /** Adding the same input twice: the second attempt is always rejected and
      leaves the record as the first left it. */
  lemma AddTwiceRejected(lib: Library, input: string)
    ensures Add(Add(lib, input).lib, input) == Added(false, Add(lib, input).lib)
  {
  }

  // ---------------------------------------------------------------------
  // Remove
  // ---------------------------------------------------------------------

  /** Moving a title to the archive keeps the invariants. */
  lemma RemovePreservesValid(lib: Library, title: string)
    requires Valid(lib)
    ensures Valid(Remove(lib, title))
  {
    if title in lib.pool {
      var r := Remove(lib, title);
      RemoveFirstNoDup(lib.pool, title);
      NoDupAppend(lib.archive, title);
      assert forall x :: x in r.archive ==> x in lib.archive || x == title;
    }
  }

  /** Under the invariants, removing a title takes it off the wheel entirely
      and makes it the last archived title; the wheel keeps its other titles. */
  lemma RemoveMovesTitle(lib: Library, title: string)
    requires Valid(lib)
    requires title in lib.pool
    ensures title !in Remove(lib, title).pool
    ensures title in Remove(lib, title).archive
    ensures Known(Remove(lib, title)) == Known(lib)
    ensures forall x :: x in lib.pool && x != title ==> x in Remove(lib, title).pool
  {
    var r := Remove(lib, title);
    RemoveFirstNoDup(lib.pool, title);
    forall x | x in lib.pool && x != title
      ensures x in r.pool
    {
      assert multiset(lib.pool)[x] > 0;
    }
  }

  /** Under the invariants a second remove of the same title does nothing. */
  lemma RemoveIdempotent(lib: Library, title: string)
    requires Valid(lib)
    ensures Remove(Remove(lib, title), title) == Remove(lib, title)
  {
    RemoveFirstNoDup(lib.pool, title);
  }

  /** The argument of a remove is not trimmed: under the invariants a title
      with surrounding whitespace matches nothing on the wheel. */
  lemma RemoveUntrimmedIsNoop(lib: Library, title: string)
    requires Valid(lib)
    requires Trim(title) != title
    ensures Remove(lib, title) == lib
  {
  }

  /** Removing the title an add has just appended puts the wheel back as it
      was and archives that title. */
  lemma RemoveUndoesAdd(lib: Library, input: string)
    requires Add(lib, input).ok
    ensures Remove(Add(lib, input).lib, Trim(input))
         == Library(lib.pool, lib.archive + [Trim(input)])
  {
    RemoveFirstOfAppended(lib.pool, Trim(input));
  }

  // ---------------------------------------------------------------------
  // Reset
  // ---------------------------------------------------------------------

  /** Putting the archive back keeps the invariants. */
  lemma ResetPreservesValid(lib: Library)
    requires Valid(lib)
    ensures Valid(Reset(lib))
  {
    ValidIffCatalogue(lib);
    ValidIffCatalogue(Reset(lib));
  }

  /** A reset with an empty archive changes nothing, and a second reset is
      always a no-op. */
  lemma ResetIdempotent(lib: Library)
    ensures lib.archive == [] ==> Reset(lib) == lib
    ensures Reset(Reset(lib)) == Reset(lib)
  {
  }

  /** After any removal, a reset yields the same wheel as resetting right
      away would have, up to order: no title is lost or duplicated. */
  lemma ResetAfterRemove(lib: Library, title: string)
    ensures multiset(Reset(Remove(lib, title)).pool) == multiset(Reset(lib).pool)
  {
  }
}
