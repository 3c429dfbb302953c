# Reading wheel: book-list model

This project models the book-list manager of the "reading wheel" app: a
Streamlit page that spins a wheel over a list of book titles. The state is one
record with two ordered lists:

- `liste_tirage`: the titles still on the wheel, called `pool` here;
- `livres_supprimes`: the titles already drawn or taken off, called `archive`.

Four operations act on the record. `ajouter_livre` trims a title and appends
it to the wheel if it is new. `supprimer_livre` moves a title from the wheel
to the end of the archive. `reinitialiser_liste` puts the whole archive back
on the wheel. `tirer_livre` picks a random title without changing anything,
although the page never calls it: the page's pick is the segment where the
JavaScript wheel stops, sent back through the URL and confirmed with a
button that calls `supprimer_livre`. Every accepted add, every remove of a
title on the wheel, and every reset overwrites the JSON file `livres.json`
with the whole record; a reset saves even when the archive is empty and
nothing changes.

Files and modules:

- `titles.dfy` (`Titles`): Python's `str.strip()` over the characters
  `str.isspace()` accepts, and the notion of a stored title (trimmed and
  non-empty).
- `seqs.dfy` (`Seqs`): duplicate-freedom, disjointness, and Python's
  `list.remove` (first occurrence).
- `books.dfy` (`Books`): the `Library` record and its invariant `Valid`.
  The invariant says both lists are duplicate-free, they share no title, and
  every title is trimmed and non-empty. The module also holds `Add`, `Remove`
  and `Reset`, with lemmas that each keeps `Valid` and how they relate.
- `draw.dfy` (`DrawEngine`): the draw. The random index is an explicit
  parameter `roll`, so the lemmas are about which rolls give which title.
- `list_store.dfy` (`ListStore`): the durable record (`Option<Library>`),
  a counter of saves, the operations as the app calls them, and sessions
  (any sequence of add/remove/reset actions).
- `optional.dfy` (`Optional`): `Option`, standing for Python's `None`.

The operations are total functions: they accept any record, including one
that breaks the invariants. The loaded file is never validated, so `Valid`
is a precondition of the preservation lemmas and is not assumed of loaded
data. The draw is a pure function of the wheel, so it cannot change the
record.

Three details of the code shape the model:

- `supprimer_livre` compares its argument as given, while `ajouter_livre`
  trims its input first (`RemoveUntrimmedIsNoop`).
- `list.remove` drops only the first occurrence of a title. This matters only
  if the wheel holds duplicates, which the invariant rules out.
- `sauvegarder_livres` opens the file with mode `"w"`, which truncates it and
  then writes, so a save is not atomic. The model treats a save as one
  whole-record overwrite.

## Model

| member | source | states |
|---|---|---|
| Titles.SkipLeft | app.py:26 | the left scan stops at the first non-whitespace character, or at the end, having passed only whitespace |
| Titles.SkipRight | app.py:26 | the right scan stops just after the last non-whitespace character not below its lower bound, having passed only whitespace |
| Titles.Trim | app.py:26 | the result is no longer than the input and neither starts nor ends with whitespace |
| Titles.TrimCutsOnlyWhitespace | app.py:26 | the result is an infix of the input, and every character cut from either end is whitespace |
| Titles.TrimIdempotent | app.py:26 | trimming an already trimmed title changes nothing |
| Titles.TrimEmptyIffAllSpace | app.py:26-27 | the trimmed input is empty exactly when the input is all whitespace |
| Titles.TrimPadded | app.py:26-27 | a stored title with whitespace added on both sides trims back to that title |
| Seqs.RemoveFirst | app.py:35 | `list.remove`: a present element loses exactly its first occurrence, every other element keeps its relative order, one copy fewer remains, and an absent element leaves the list unchanged |
| Seqs.RemoveFirstNoDup | app.py:35 | on a duplicate-free list, remove leaves a duplicate-free list without the element, drawn from the original |
| Books.Empty | app.py:14 | the record used when no file exists has both lists empty |
| Books.EmptyValid | app.py:14 | the empty record satisfies the invariants |
| Books.ValidIffCatalogue | app.py:27-28 | the invariants hold exactly when the wheel followed by the archive is one duplicate-free list of stored titles |
| Books.ValidTitlesNonEmpty | app.py:26-28 | under the invariants every known title is non-empty once trimmed |
| Books.Add | app.py:25-31 | success exactly when the trimmed input is non-empty and in neither list; on success the trimmed title is appended to the wheel and the archive is untouched; on failure the record is unchanged |
| Books.AddPreservesValid | app.py:26-28 | an add keeps both lists duplicate-free and disjoint, with every title trimmed and non-empty |
| Books.AddKnown | app.py:27-31 | a successful add grows the known titles by exactly the trimmed input and the count by one; a rejected add changes neither |
| Books.AddRejectsBlank | app.py:26-27 | whitespace-only input is rejected and leaves the record unchanged |
| Books.AddRejectsPaddedDuplicate | app.py:26-27 | a known title typed with surrounding whitespace is rejected |
| Books.AddTwiceRejected | app.py:27-31 | repeating an add is always rejected and leaves the record as the first add left it |
| Books.Remove | app.py:33-37 | a title on the wheel loses its first occurrence there and is appended to the archive; other arguments change nothing; the titles as a multiset and their count are conserved |
| Books.RemovePreservesValid | app.py:34-36 | remove keeps both lists duplicate-free and disjoint with every title stored |
| Books.RemoveMovesTitle | app.py:34-36 | under the invariants the removed title is gone from the wheel and archived, every other wheel title stays, and the known titles are the same |
| Books.RemoveIdempotent | app.py:33-34 | under the invariants a second remove of the same title is a no-op |
| Books.RemoveUntrimmedIsNoop | app.py:33-34 | the argument is not trimmed: an argument with surrounding whitespace matches nothing on a valid wheel |
| Books.RemoveUndoesAdd | app.py:25-36 | removing the title an add just appended restores the wheel and archives the title |
| Books.Reset | app.py:39-41 | the archive becomes empty; the new wheel is the old wheel followed by the old archive in its order; the count is conserved |
| Books.ResetPreservesValid | app.py:39-41 | reset keeps the invariants |
| Books.ResetIdempotent | app.py:39-41 | reset with an empty archive changes nothing, and resetting twice equals resetting once |
| Books.ResetAfterRemove | app.py:33-41 | a remove followed by a reset gives the same titles on the wheel, as a multiset, as a reset alone |
| DrawEngine.Draw | app.py:20-23 | nothing is drawn exactly when the wheel is empty; otherwise the result is a title on the wheel |
| DrawEngine.DrawReachesEvery | app.py:23 | every title on the wheel is drawn by some roll |
| DrawEngine.DrawUniform | app.py:23 | on a duplicate-free wheel each title is drawn by exactly one of the possible rolls, and a title not on the wheel by none |
| ListStore.Load | app.py:9-14 | loading performs no save and does not create a missing file; a missing file gives the empty record; reloading gives what is in memory |
| ListStore.Save | app.py:16-18 | a save always creates or overwrites the durable record with exactly the in-memory state, whatever it held before, and counts one write |
| ListStore.AddBook | app.py:25-31 | an accepted add saves exactly once, writing the file with the new in-memory record; a rejected add changes nothing and saves nothing |
| ListStore.RemoveBook | app.py:33-37 | removing a title on the wheel saves exactly once, writing the file with the new in-memory record; removing any other argument changes nothing and saves nothing |
| ListStore.ResetBooks | app.py:39-42 | reset always saves exactly once and writes the file with the new in-memory record, even with an empty archive and no file before |
| ListStore.StepPreserves | app.py:25-42 | one action keeps the invariants and the file in step with memory, saves at most once, and loses no title |
| ListStore.RunPreserves | app.py:25-42 | any sequence of actions keeps the invariants and file consistency, saves at most once per action, and never loses a title |
| ListStore.FreshSessionsStayValid | app.py:9-42 | every state reachable from a missing file satisfies the invariants and matches what a reload would give |
| ListStore.ConfirmSelected | app.py:178-183 | confirming any title on the wheel moves it from the wheel to the end of the archive with one save, and the count is unchanged |
| ListStore.DuneSession | app.py:25-42 | a first session adds "Dune", rejects it the second time, archives it, ignores a second archive, resets, and rejects a blank title, with three saves in all |

## Left out

- Reading and writing `livres.json` (app.py:9-18) is modelled only as the optional record value and a save counter. The model omits the JSON encoding, the file encoding and indentation, and the exceptions raised by an unreadable, corrupt or unwritable file.
- Loaded data is not validated, as in the source. The model does not check or repair an invalid file. `Valid` is a precondition of the lemmas instead.
- The Streamlit page (app.py:44-233) is not modelled. It covers `st.session_state`, passing the drawn title through the URL, forms, buttons and reruns. The model keeps only the confirmation of a selected title (`ConfirmSelected`).
- The wheel animation is not modelled. This covers the HTML/JavaScript in app.py:73-155, including where the wheel stops, which is the page's actual pick.
- roue_component.py is not modelled. app.py does not use it. Its wheel cuts titles longer than 45 characters to 40 characters plus "...", and it posts that cut text back as the selected value.
- DrawEngine.Draw: the page never calls `tirer_livre`; the title it confirms comes from the JavaScript wheel. `Draw` models the function as written. `ConfirmSelected` covers confirming any title on the wheel, whatever picked it.
- DrawEngine.DrawUniform: the random index is a parameter, not a probability distribution. Uniformity is stated only as "each title has exactly one roll" (`DrawUniform`). The source's own sampling is not part of this model.
- Titles.IsSpace: the whitespace set is a fixed table of the characters Python's `str.isspace()` accepts. It is not derived from the Unicode database of a particular Python version.
- The source mutates one shared dictionary in place. The model returns new values instead, which has the same effect on the saved and displayed state.
