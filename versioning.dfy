/**
 * The shape of the manuscripts and revisions tables: each manuscript points at a revision
 * of its own, the current one, which carries the highest index; `(manuscript_id, index)`
 * is unique; and a manuscript's indices run from 0 without gaps. Creating a manuscript,
 * editing revisions and `updateRevise` keep that shape.
 */
module Versioning {
  import opened Wrappers
  import opened Records

  /** Manuscript `m` points at a revision that belongs to it. */
  predicate CurrentOk(ms: seq<Manuscript>, rs: seq<Revision>, m: nat)
    requires m < |ms|
  {
    ms[m].revisionId.Some? && ms[m].revisionId.value < |rs| && rs[ms[m].revisionId.value].manuscriptId == m
  }

  /** Revision `i` belongs to an existing manuscript and its index is at most that of the manuscript's current revision. */
  predicate Placed(ms: seq<Manuscript>, rs: seq<Revision>, i: nat)
    requires i < |rs|
  {
    var m := rs[i].manuscriptId;
    m < |ms| && CurrentOk(ms, rs, m) && rs[i].index <= rs[ms[m].revisionId.value].index
  }

  /** Some revision of manuscript `m` has index `k`. */
  predicate HasIndex(rs: seq<Revision>, m: nat, k: nat)
  {
    exists j :: 0 <= j < |rs| && rs[j].manuscriptId == m && rs[j].index == k
  }

  predicate Versioned(ms: seq<Manuscript>, rs: seq<Revision>)
  {
    (forall m :: 0 <= m < |ms| ==> CurrentOk(ms, rs, m))
    && (forall i :: 0 <= i < |rs| ==> Placed(ms, rs, i))
    && (forall i, j :: 0 <= i < |rs| && 0 <= j < |rs| && i != j && rs[i].manuscriptId == rs[j].manuscriptId ==>
          rs[i].index != rs[j].index)
    && (forall i, k: nat :: 0 <= i < |rs| && k <= rs[i].index ==> HasIndex(rs, rs[i].manuscriptId, k))
  }

  /** The position of the current revision of manuscript `m`. */
  function Current(ms: seq<Manuscript>, rs: seq<Revision>, m: nat): (c: nat)
    requires Versioned(ms, rs) && m < |ms|
    ensures c < |rs| && rs[c].manuscriptId == m
    ensures forall i :: 0 <= i < |rs| && rs[i].manuscriptId == m ==> rs[i].index <= rs[c].index
  {
    assert CurrentOk(ms, rs, m);
    var c := ms[m].revisionId.value;
    assert forall i :: 0 <= i < |rs| && rs[i].manuscriptId == m ==> Placed(ms, rs, i);
    c
  }

  /** The lowest position of a revision of `m` with index `k` (what `->where('index', k)->firstOrFail()` finds). */
  function FindIndex(rs: seq<Revision>, m: nat, k: nat): (found: Option<nat>)
    ensures found.Some? ==> found.value < |rs| && rs[found.value].manuscriptId == m && rs[found.value].index == k
    ensures found.Some? ==> forall j :: 0 <= j < found.value ==> !(rs[j].manuscriptId == m && rs[j].index == k)
    ensures found.None? <==> !HasIndex(rs, m, k)
    decreases |rs|
  {
    if |rs| == 0 then None
    else
      var last := |rs| - 1;
      var earlier := FindIndex(rs[..last], m, k);
      if earlier.Some? then
        Some(earlier.value)
      else if rs[last].manuscriptId == m && rs[last].index == k then
        Some(last)
      else
        assert forall j :: 0 <= j < last ==> rs[..last][j] == rs[j];
        None
  }

  /**
   * The revision before the current one exists whenever the current index is positive,
   * and it is the only revision of the manuscript with that index.
   */
  lemma PreviousRevisionExists(ms: seq<Manuscript>, rs: seq<Revision>, m: nat)
    requires Versioned(ms, rs) && m < |ms| && rs[Current(ms, rs, m)].index > 0
    ensures FindIndex(rs, m, rs[Current(ms, rs, m)].index - 1).Some?
    ensures forall j :: 0 <= j < |rs| && rs[j].manuscriptId == m && rs[j].index == rs[Current(ms, rs, m)].index - 1 ==>
      j == FindIndex(rs, m, rs[Current(ms, rs, m)].index - 1).value
  {
    var c := Current(ms, rs, m);
    assert HasIndex(rs, rs[c].manuscriptId, rs[c].index - 1);
  }

  lemma HasIndexGrows(rs: seq<Revision>, r: Revision, m: nat, k: nat)
    requires HasIndex(rs, m, k)
    ensures HasIndex(rs + [r], m, k)
  {
    var j :| 0 <= j < |rs| && rs[j].manuscriptId == m && rs[j].index == k;
    assert (rs + [r])[j] == rs[j];
  }

  /** `storeUpdate` for a new manuscript: the manuscript and its index-0 revision are appended together. */
  lemma CreateKeepsVersioned(ms: seq<Manuscript>, rs: seq<Revision>, m: Manuscript, r: Revision)
    requires Versioned(ms, rs)
    requires m.revisionId == Some(|rs|) && r.manuscriptId == |ms| && r.index == 0
    ensures Versioned(ms + [m], rs + [r])
  {
    var ms', rs' := ms + [m], rs + [r];
    forall x | 0 <= x < |ms'|
      ensures CurrentOk(ms', rs', x)
    {
      if x < |ms| {
        assert CurrentOk(ms, rs, x);
      }
    }
    forall i | 0 <= i < |rs'|
      ensures Placed(ms', rs', i)
    {
      if i < |rs| {
        assert Placed(ms, rs, i);
      }
    }
    forall i | 0 <= i < |rs|
      ensures rs'[i].manuscriptId != rs'[|rs|].manuscriptId
    {
      assert Placed(ms, rs, i);
    }
    forall i, k: nat | 0 <= i < |rs'| && k <= rs'[i].index
      ensures HasIndex(rs', rs'[i].manuscriptId, k)
    {
      if i < |rs| {
        HasIndexGrows(rs, r, rs[i].manuscriptId, k);
      } else {
        assert rs'[|rs|].manuscriptId == |ms| && rs'[|rs|].index == 0;
      }
    }
  }

  /** Editing a revision in place keeps the shape as long as its manuscript and index stay. */
  lemma EditKeepsVersioned(ms: seq<Manuscript>, rs: seq<Revision>, i: nat, r: Revision)
    requires Versioned(ms, rs) && i < |rs|
    requires r.manuscriptId == rs[i].manuscriptId && r.index == rs[i].index
    ensures Versioned(ms, rs[i := r])
  {
    var rs' := rs[i := r];
    forall x | 0 <= x < |ms|
      ensures CurrentOk(ms, rs', x)
    {
      assert CurrentOk(ms, rs, x);
    }
    forall j | 0 <= j < |rs'|
      ensures Placed(ms, rs', j)
    {
      assert Placed(ms, rs, j);
    }
    forall j, k: nat | 0 <= j < |rs'| && k <= rs'[j].index
      ensures HasIndex(rs', rs'[j].manuscriptId, k)
    {
      assert HasIndex(rs, rs[j].manuscriptId, k);
      var w :| 0 <= w < |rs| && rs[w].manuscriptId == rs[j].manuscriptId && rs[w].index == k;
      assert rs'[w].manuscriptId == rs[w].manuscriptId && rs'[w].index == rs[w].index;
    }
  }

  /** Editing a manuscript row keeps the shape as long as its current-revision pointer stays. */
  lemma ManuscriptEditKeepsVersioned(ms: seq<Manuscript>, rs: seq<Revision>, m: nat, row: Manuscript)
    requires Versioned(ms, rs) && m < |ms| && row.revisionId == ms[m].revisionId
    ensures Versioned(ms[m := row], rs)
  {
    var ms' := ms[m := row];
    forall x | 0 <= x < |ms'|
      ensures CurrentOk(ms', rs, x)
    {
      assert CurrentOk(ms, rs, x);
    }
    forall j | 0 <= j < |rs|
      ensures Placed(ms', rs, j)
    {
      assert Placed(ms, rs, j);
    }
  }

  /**
   * `updateRevise`: the next revision, with the index after the current one, is appended and
   * becomes current. The old revisions all stay, and no index of the manuscript is reused.
   */
  lemma ReviseKeepsVersioned(ms: seq<Manuscript>, rs: seq<Revision>, m: nat, r: Revision)
    requires Versioned(ms, rs) && m < |ms|
    requires r.manuscriptId == m && r.index == rs[Current(ms, rs, m)].index + 1
    ensures Versioned(ms[m := ms[m].(revisionId := Some(|rs|))], rs + [r])
    ensures forall i :: 0 <= i < |rs| && rs[i].manuscriptId == m ==> rs[i].index < r.index
  {
    var c := Current(ms, rs, m);
    var ms', rs' := ms[m := ms[m].(revisionId := Some(|rs|))], rs + [r];
    forall x | 0 <= x < |ms'|
      ensures CurrentOk(ms', rs', x)
    {
      if x != m {
        assert CurrentOk(ms, rs, x);
      }
    }
    forall i | 0 <= i < |rs'|
      ensures Placed(ms', rs', i)
    {
      if i < |rs| {
        assert Placed(ms, rs, i);
        if rs[i].manuscriptId != m {
          assert CurrentOk(ms, rs, rs[i].manuscriptId);
        }
      }
    }
    forall i, k: nat | 0 <= i < |rs'| && k <= rs'[i].index
      ensures HasIndex(rs', rs'[i].manuscriptId, k)
    {
      if i < |rs| {
        HasIndexGrows(rs, r, rs[i].manuscriptId, k);
      } else if k == r.index {
        assert rs'[|rs|] == r;
      } else {
        assert HasIndex(rs, rs[c].manuscriptId, k);
        HasIndexGrows(rs, r, m, k);
      }
    }
  }
}
