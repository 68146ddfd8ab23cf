/**
 * The two list transformations every grid page applies to its records:
 * `list.filter(r => r.id !== id)` for delete and
 * `list.map(r => r.id === id ? f(r) : r)` for a cell change.
 * Records are generic; `idOf` reads a record's identifier.
 */
module RecordLists {

  /** Number of records in `rs` whose identifier is `id`. */
  function Count<R>(rs: seq<R>, idOf: R -> string, id: string): nat {
    if rs == [] then 0 else (if idOf(rs[0]) == id then 1 else 0) + Count(rs[1..], idOf, id)
  }

  /** Identifiers are pairwise distinct. */
  predicate DistinctIds<R>(rs: seq<R>, idOf: R -> string) {
    forall i, j :: 0 <= i < j < |rs| ==> idOf(rs[i]) != idOf(rs[j])
  }

  /** `rs.filter(r => idOf(r) !== id)`; the kept records stay in order, by WithoutAppend. */
  function Without<R(==)>(rs: seq<R>, idOf: R -> string, id: string): (r: seq<R>)
    ensures |r| == |rs| - Count(rs, idOf, id)
    ensures forall i :: 0 <= i < |r| ==> r[i] in rs && idOf(r[i]) != id
    ensures forall i :: 0 <= i < |rs| && idOf(rs[i]) != id ==> rs[i] in r
  {
    if rs == [] then []
    else if idOf(rs[0]) == id then Without(rs[1..], idOf, id)
    else [rs[0]] + Without(rs[1..], idOf, id)
  }

  /** `rs.map(r => idOf(r) === id ? f(r) : r)` */
  function UpdateWhere<R>(rs: seq<R>, idOf: R -> string, id: string, f: R -> R): (r: seq<R>)
    ensures |r| == |rs|
    ensures forall i :: 0 <= i < |rs| ==> r[i] == if idOf(rs[i]) == id then f(rs[i]) else rs[i]
  {
    if rs == [] then []
    else [if idOf(rs[0]) == id then f(rs[0]) else rs[0]] + UpdateWhere(rs[1..], idOf, id, f)
  }

  /** Filtering distributes over concatenation, so the kept records stay in their original order. */
  lemma {:induction false} WithoutAppend<R>(a: seq<R>, b: seq<R>, idOf: R -> string, id: string)
    ensures Without(a + b, idOf, id) == Without(a, idOf, id) + Without(b, idOf, id)
  {
    if a == [] {
      assert a + b == b;
    } else {
      assert (a + b)[0] == a[0];
      assert (a + b)[1..] == a[1..] + b;
      WithoutAppend(a[1..], b, idOf, id);
      if idOf(a[0]) != id {
        calc {
          Without(a + b, idOf, id);
          [a[0]] + Without(a[1..] + b, idOf, id);
          [a[0]] + (Without(a[1..], idOf, id) + Without(b, idOf, id));
          ([a[0]] + Without(a[1..], idOf, id)) + Without(b, idOf, id);
        }
      }
    }
  }

  /** Deleting an identifier no record carries leaves the list as it was. */
  lemma {:induction false} WithoutAbsent<R>(rs: seq<R>, idOf: R -> string, id: string)
    requires forall i :: 0 <= i < |rs| ==> idOf(rs[i]) != id
    ensures Without(rs, idOf, id) == rs
  {
    if rs != [] {
      WithoutAbsent(rs[1..], idOf, id);
    }
  }

  /** Filtering splits around position `k`. */
  lemma WithoutSplit<R>(rs: seq<R>, idOf: R -> string, id: string, k: nat)
    requires k < |rs|
    ensures Without(rs, idOf, id) == Without(rs[..k], idOf, id) + Without([rs[k]], idOf, id) + Without(rs[k+1..], idOf, id)
  {
    assert rs == rs[..k] + ([rs[k]] + rs[k+1..]);
    WithoutAppend(rs[..k], [rs[k]] + rs[k+1..], idOf, id);
    WithoutAppend([rs[k]], rs[k+1..], idOf, id);
  }

  /** A record is deleted by its own identifier. */
  lemma WithoutOwn<R>(x: R, idOf: R -> string)
    ensures Without([x], idOf, idOf(x)) == []
  {
    assert [x][1..] == [];
  }

  /**
   * With distinct identifiers, deleting the identifier of the record at
   * position `k` removes exactly that record, wherever it is.
   */
  lemma WithoutUnique<R>(rs: seq<R>, idOf: R -> string, k: nat)
    requires k < |rs| && DistinctIds(rs, idOf)
    ensures Without(rs, idOf, idOf(rs[k])) == rs[..k] + rs[k+1..]
  {
    var id := idOf(rs[k]);
    var pre, post := rs[..k], rs[k+1..];
    forall i | 0 <= i < |pre| ensures idOf(pre[i]) != id {
      assert pre[i] == rs[i];
    }
    forall i | 0 <= i < |post| ensures idOf(post[i]) != id {
      assert post[i] == rs[k + 1 + i];
    }
    WithoutAbsent(pre, idOf, id);
    WithoutAbsent(post, idOf, id);
    WithoutSplit(rs, idOf, id, k);
    WithoutOwn(rs[k], idOf);
    assert pre + [] + post == pre + post;
  }

  /** Deleting twice is deleting once. */
  lemma WithoutIdempotent<R>(rs: seq<R>, idOf: R -> string, id: string)
    ensures Without(Without(rs, idOf, id), idOf, id) == Without(rs, idOf, id)
  {
    var w := Without(rs, idOf, id);
    WithoutAbsent(w, idOf, id);
  }

  /** Updating an identifier no record carries leaves the list as it was. */
  lemma UpdateWhereAbsent<R>(rs: seq<R>, idOf: R -> string, id: string, f: R -> R)
    requires forall i :: 0 <= i < |rs| ==> idOf(rs[i]) != id
    ensures UpdateWhere(rs, idOf, id, f) == rs
  {
  }

  /** Deletion keeps distinct identifiers distinct. */
  lemma {:induction false} WithoutDistinct<R>(rs: seq<R>, idOf: R -> string, id: string)
    requires DistinctIds(rs, idOf)
    ensures DistinctIds(Without(rs, idOf, id), idOf)
  {
    if rs != [] {
      WithoutDistinct(rs[1..], idOf, id);
      var w := Without(rs[1..], idOf, id);
      forall j | 0 <= j < |w| ensures idOf(w[j]) != idOf(rs[0]) {
        assert w[j] in rs[1..];
      }
    }
  }

  /** `rs.reduce((sum, r) => sum + amountOf(r), 0)`, folded from the left. */
  function Sum<R>(rs: seq<R>, amountOf: R -> int): int {
    if rs == [] then 0 else Sum(rs[..|rs| - 1], amountOf) + amountOf(rs[|rs| - 1])
  }

  /** The sum over a concatenation is the sum of the sums. */
  lemma {:induction false} SumAppend<R>(a: seq<R>, b: seq<R>, amountOf: R -> int)
    ensures Sum(a + b, amountOf) == Sum(a, amountOf) + Sum(b, amountOf)
  {
    if b == [] {
      assert a + b == a;
    } else {
      assert (a + b)[..|a + b| - 1] == a + b[..|b| - 1];
      SumAppend(a, b[..|b| - 1], amountOf);
    }
  }

  /** Amounts that are never negative give a sum that is never negative, and all-zero amounts give zero. */
  lemma {:induction false} SumNonNegative<R>(rs: seq<R>, amountOf: R -> int)
    ensures (forall i :: 0 <= i < |rs| ==> amountOf(rs[i]) >= 0) ==> Sum(rs, amountOf) >= 0
    ensures (forall i :: 0 <= i < |rs| ==> amountOf(rs[i]) == 0) ==> Sum(rs, amountOf) == 0
  {
    if rs != [] {
      var init := rs[..|rs| - 1];
      assert forall i :: 0 <= i < |init| ==> init[i] == rs[i];
      SumNonNegative(init, amountOf);
    }
  }

  /** Appending one record adds its amount. */
  lemma SumSnoc<R>(a: seq<R>, x: R, amountOf: R -> int)
    ensures Sum(a + [x], amountOf) == Sum(a, amountOf) + amountOf(x)
  {
    assert (a + [x])[..|a + [x]| - 1] == a;
  }

  /** The sum splits around position `k`. */
  lemma SumSplit<R>(rs: seq<R>, k: nat, amountOf: R -> int)
    requires k < |rs|
    ensures Sum(rs, amountOf) == Sum(rs[..k], amountOf) + amountOf(rs[k]) + Sum(rs[k+1..], amountOf)
  {
    var upto := rs[..k] + [rs[k]];
    SumSnoc(rs[..k], rs[k], amountOf);
    assert rs == upto + rs[k+1..];
    SumAppend(upto, rs[k+1..], amountOf);
  }

  /** With distinct identifiers, deleting the record at position `k` takes exactly its amount off the sum. */
  lemma SumWithoutUnique<R>(rs: seq<R>, idOf: R -> string, amountOf: R -> int, k: nat)
    requires k < |rs| && DistinctIds(rs, idOf)
    ensures Sum(Without(rs, idOf, idOf(rs[k])), amountOf) == Sum(rs, amountOf) - amountOf(rs[k])
  {
    WithoutUnique(rs, idOf, k);
    SumAppend(rs[..k], rs[k+1..], amountOf);
    SumSplit(rs, k, amountOf);
  }
}
