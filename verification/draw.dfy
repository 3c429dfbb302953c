/**
 The draw (`tirer_livre`): picks one title from the wheel without changing it.
 Python's `random.choice(liste)` indexes the list with a number below its
 length; that number is the explicit `roll` parameter here, so the random
 source stays outside the model.
 */
module DrawEngine {
  import opened Optional
  import opened Titles
  import opened Seqs

  /** `tirer_livre(liste)` when `random.choice` rolls `roll`. */
  function Draw(pool: seq<Title>, roll: nat): (r: Option<Title>)
    requires pool != [] ==> roll < |pool|
    ensures r.None? <==> pool == []
    ensures r.Some? ==> r.value in pool
  {
    if pool == [] then None else Some(pool[roll])
  }

  /** The rolls, among those `random.choice` can produce, that draw `t`. */
  function RollsFor(pool: seq<Title>, t: Title): set<nat> {
    set i: nat | i < |pool| && Draw(pool, i) == Some(t)
  }

  /** Every title on the wheel can be drawn: roll `k` draws the k-th title. */
  lemma DrawReachesEvery(pool: seq<Title>, k: nat)
    requires k < |pool|
    ensures Draw(pool, k) == Some(pool[k])
    ensures k in RollsFor(pool, pool[k])
  {
  }

  /** On a duplicate-free wheel each title is drawn by exactly one of the
      |pool| possible rolls, so a uniform roll gives each title probability
      1/|pool|; titles not on the wheel are drawn by none. */
  lemma DrawUniform(pool: seq<Title>, t: Title)
    requires NoDup(pool)
    ensures t in pool ==> RollsFor(pool, t) == {FirstIndex(pool, t)}
    ensures t in pool ==> |RollsFor(pool, t)| == 1
    ensures t !in pool ==> RollsFor(pool, t) == {}
  {
    if t in pool {
      var k := FirstIndex(pool, t);
      forall i | i in RollsFor(pool, t)
        ensures i == k
      {
        assert pool[i] == pool[k];
      }
    }
  }
}
