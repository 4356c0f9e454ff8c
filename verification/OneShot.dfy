/** Bookkeeping for a store that is written by persist attempts and emptied by restores: which attempt
    each restored value came from. */
module OneShot {
  import opened Bytes

  /** One persist attempt; `reached` says that its erase completed at least the first page. */
  datatype Attempt<T> = Attempt(value: T, reached: bool)

  /** One completed restore, and how many attempts had been made by then. */
  datatype Restoration<T> = Restoration(value: T, after: nat)

  datatype Ledger<T> = Ledger(attempts: seq<Attempt<T>>, restored: seq<Restoration<T>>) {
    function Attempted(v: T, reached: bool): Ledger<T> {
      this.(attempts := attempts + [Attempt(v, reached)])
    }

    function Recorded(v: T): Ledger<T> {
      this.(restored := restored + [Restoration(v, |attempts|)])
    }
  }

  ghost predicate IsLatestReached<T(!new)>(a: seq<Attempt<T>>, n: nat, j: nat) {
    && j < n <= |a| && a[j].reached
    && forall k :: j < k < n ==> !a[k].reached
  }

  /** Restoration `i` returned the value of attempt `j`, the latest one by then to reach its erase. */
  ghost predicate CameFrom<T(!new)>(l: Ledger<T>, i: nat, j: nat)
    requires i < |l.restored|
  {
    && IsLatestReached(l.attempts, l.restored[i].after, j)
    && l.attempts[j].value == l.restored[i].value
  }

  ghost predicate HasSource<T(!new)>(l: Ledger<T>, i: nat)
    requires i < |l.restored|
  {
    exists j: nat :: CameFrom(l, i, j)
  }

  /** Every restored value came from such an attempt. */
  ghost predicate Sourced<T(!new)>(l: Ledger<T>) {
    forall i: nat :: i < |l.restored| ==> HasSource(l, i)
  }

  /** The attempts restored from are strictly increasing: none is restored twice or out of order. */
  ghost predicate Increasing<T(!new)>(l: Ledger<T>) {
    forall i: nat, k: nat, ji: nat, jk: nat :: 0 <= i < k < |l.restored| && CameFrom(l, i, ji) && CameFrom(l, k, jk) ==> ji < jk
  }

  /** What is in the store now came from the latest attempt that reached its erase, and has not been
      restored yet. */
  ghost predicate Backed<T(!new)>(l: Ledger<T>, stored: Option<T>) {
    stored.Some? ==>
      exists j: nat ::
        && IsLatestReached(l.attempts, |l.attempts|, j)
        && l.attempts[j].value == stored.value
        && forall i: nat, ji: nat :: 0 <= i < |l.restored| && CameFrom(l, i, ji) ==> ji < j
  }

  ghost predicate Inv<T(!new)>(l: Ledger<T>, stored: Option<T>) {
    Sourced(l) && Increasing(l) && Backed(l, stored)
  }

  /** A restoration's source does not change when later attempts are appended. */
  lemma SourceIsStable<T(!new)>(l: Ledger<T>, a: Attempt<T>, i: nat, j: nat)
    requires i < |l.restored| && l.restored[i].after <= |l.attempts|
    ensures CameFrom(l, i, j) <==> CameFrom(l.Attempted(a.value, a.reached), i, j)
  {
    assert forall k :: 0 <= k < |l.attempts| ==> l.attempts[k] == l.Attempted(a.value, a.reached).attempts[k];
  }

  lemma AttemptKeeps<T(!new)>(l: Ledger<T>, stored: Option<T>, v: T, reached: bool, stored': Option<T>)
    requires Inv(l, stored)
    requires if reached then stored' == None || stored' == Some(v) else stored' == stored
    ensures Inv(l.Attempted(v, reached), stored')
  {
    var l' := l.Attempted(v, reached);
    forall i: nat, j: nat | 0 <= i < |l.restored|
      ensures CameFrom(l, i, j) <==> CameFrom(l', i, j)
    {
      assert HasSource(l, i);
      var j0: nat :| CameFrom(l, i, j0);
      SourceIsStable(l, Attempt(v, reached), i, j);
    }
    forall i: nat | 0 <= i < |l'.restored|
      ensures HasSource(l', i)
    {
      assert HasSource(l, i);
      var j: nat :| CameFrom(l, i, j);
      assert CameFrom(l', i, j);
    }
    if stored'.Some? {
      if reached {
        assert IsLatestReached(l'.attempts, |l'.attempts|, |l.attempts|);
      } else {
        var j: nat :| IsLatestReached(l.attempts, |l.attempts|, j) && l.attempts[j].value == stored.value
                 && forall i: nat, ji: nat :: 0 <= i < |l.restored| && CameFrom(l, i, ji) ==> ji < j;
        assert IsLatestReached(l'.attempts, |l'.attempts|, j);
      }
    }
  }

  lemma RestoreKeeps<T(!new)>(l: Ledger<T>, v: T)
    requires Inv(l, Some(v))
    ensures Inv(l.Recorded(v), None)
  {
    var l' := l.Recorded(v);
    var n := |l.restored|;
    var j: nat :| IsLatestReached(l.attempts, |l.attempts|, j) && l.attempts[j].value == v
             && forall i: nat, ji: nat :: 0 <= i < n && CameFrom(l, i, ji) ==> ji < j;
    forall i: nat, ji: nat | 0 <= i < n
      ensures CameFrom(l, i, ji) <==> CameFrom(l', i, ji)
    {
    }
    assert CameFrom(l', n, j);
    forall i: nat | 0 <= i < |l'.restored|
      ensures HasSource(l', i)
    {
      if i < n {
        assert HasSource(l, i);
        var ji: nat :| CameFrom(l, i, ji);
        assert CameFrom(l', i, ji);
      }
    }
    forall i: nat, k: nat, ji: nat, jk: nat | 0 <= i < k < |l'.restored| && CameFrom(l', i, ji) && CameFrom(l', k, jk)
      ensures ji < jk
    {
      assert CameFrom(l, i, ji);
      if k < n {
        assert CameFrom(l, k, jk);
      } else {
        assert jk == j;
      }
    }
  }

  lemma DropKeeps<T(!new)>(l: Ledger<T>, stored: Option<T>, stored': Option<T>)
    requires Inv(l, stored)
    requires stored' == stored || stored' == None
    ensures Inv(l, stored')
  {
  }
}
