/** What a run of TLS slot writes does to one thread's table, as pure functions
    on the table's contents, and the facts the test driver relies on: a write
    reaches only its own slot, a slot reads back the value of the last write
    to it, a later write to the same slot hides an earlier one, and a round
    that rewrites every slot erases the previous round. */
module SlotWrites {

  /** Every slot number in `ks` indexes the table `s`. */
  predicate InRange(s: seq<bv64>, ks: seq<nat>) {
    forall i :: 0 <= i < |ks| ==> ks[i] < |s|
  }

  /** No value occurs twice in `xs`. */
  predicate Distinct<T(==)>(xs: seq<T>) {
    forall i, j :: 0 <= i < j < |xs| ==> xs[i] != xs[j]
  }

  /** The table `s` after the first n writes of a run: vs[0] stored into slot
      ks[0], then vs[1] into slot ks[1], and so on, in order. */
  function Stored(s: seq<bv64>, ks: seq<nat>, vs: seq<bv64>, n: nat): (r: seq<bv64>)
    requires |ks| == |vs| && n <= |ks| && InRange(s, ks)
    ensures |r| == |s|
  {
    if n == 0 then s else Stored(s, ks, vs, n - 1)[ks[n - 1] := vs[n - 1]]
  }

  /** A slot that none of the first n writes targets keeps its value. */
  lemma {:induction false} StoredFrame(s: seq<bv64>, ks: seq<nat>, vs: seq<bv64>, n: nat, k: nat)
    requires |ks| == |vs| && n <= |ks| && InRange(s, ks) && k < |s|
    requires forall i :: 0 <= i < n ==> ks[i] != k
    ensures Stored(s, ks, vs, n)[k] == s[k]
  {
    if n > 0 {
      StoredFrame(s, ks, vs, n - 1, k);
    }
  }

  /** A slot that one of the first n writes targets holds a value that does
      not depend on what the table held before. */
  lemma {:induction false} StoredCovers(s: seq<bv64>, t: seq<bv64>, ks: seq<nat>, vs: seq<bv64>, n: nat, i: nat)
    requires |ks| == |vs| && n <= |ks| && InRange(s, ks) && |t| == |s|
    requires i < n
    ensures Stored(s, ks, vs, n)[ks[i]] == Stored(t, ks, vs, n)[ks[i]]
  {
    if ks[n - 1] != ks[i] {
      StoredCovers(s, t, ks, vs, n - 1, i);
    }
  }

  /** The last write to a slot wins: when no later write among the first n
      targets slot ks[i], that slot reads back vs[i]. */
  lemma {:induction false} StoredLastWrite(s: seq<bv64>, ks: seq<nat>, vs: seq<bv64>, n: nat, i: nat)
    requires |ks| == |vs| && n <= |ks| && InRange(s, ks) && i < n
    requires forall j :: i < j < n ==> ks[j] != ks[i]
    ensures Stored(s, ks, vs, n)[ks[i]] == vs[i]
  {
    if i < n - 1 {
      StoredLastWrite(s, ks, vs, n - 1, i);
    }
  }

  /** With pairwise distinct slots, every slot reads back the value written to it. */
  lemma ReadBack(s: seq<bv64>, ks: seq<nat>, vs: seq<bv64>, i: nat)
    requires |ks| == |vs| && InRange(s, ks) && i < |ks|
    ensures Distinct(ks) ==> Stored(s, ks, vs, |ks|)[ks[i]] == vs[i]
  {
    if Distinct(ks) {
      StoredLastWrite(s, ks, vs, |ks|, i);
    }
  }

  /** When write j goes to the same slot as an earlier write i, and the values
      written are pairwise distinct, slot ks[i] no longer reads as vs[i]. */
  lemma {:induction false} StoredCollision(s: seq<bv64>, ks: seq<nat>, vs: seq<bv64>, n: nat, i: nat, j: nat)
    requires |ks| == |vs| && n <= |ks| && InRange(s, ks) && i < j < n
    requires Distinct(vs)
    ensures ks[i] == ks[j] ==> Stored(s, ks, vs, n)[ks[i]] != vs[i]
  {
    if ks[i] == ks[j] && ks[n - 1] != ks[i] {
      StoredCollision(s, ks, vs, n - 1, i, j);
    }
  }

  /** Writing pairwise distinct values, every slot reads back its own value
      exactly when no two writes share a slot. */
  lemma ReadBackIffDistinct(s: seq<bv64>, ks: seq<nat>, vs: seq<bv64>)
    requires |ks| == |vs| && InRange(s, ks) && Distinct(vs)
    ensures (forall i :: 0 <= i < |ks| ==> Stored(s, ks, vs, |ks|)[ks[i]] == vs[i]) <==> Distinct(ks)
  {
    if forall i :: 0 <= i < |ks| ==> Stored(s, ks, vs, |ks|)[ks[i]] == vs[i] {
      forall i, j | 0 <= i < j < |ks| ensures ks[i] != ks[j] {
        StoredCollision(s, ks, vs, |ks|, i, j);
      }
    }
    forall i | 0 <= i < |ks| ensures Distinct(ks) ==> Stored(s, ks, vs, |ks|)[ks[i]] == vs[i] {
      ReadBack(s, ks, vs, i);
    }
  }

  /** Rewriting the same slots forgets everything the earlier writes stored. */
  lemma Overwrite(s: seq<bv64>, ks: seq<nat>, us: seq<bv64>, vs: seq<bv64>)
    requires |ks| == |us| == |vs| && InRange(s, ks)
    ensures Stored(Stored(s, ks, us, |ks|), ks, vs, |ks|) == Stored(s, ks, vs, |ks|)
  {
    var mid := Stored(s, ks, us, |ks|);
    var a := Stored(mid, ks, vs, |ks|);
    var b := Stored(s, ks, vs, |ks|);
    forall k | 0 <= k < |s| ensures a[k] == b[k] {
      if i :| 0 <= i < |ks| && ks[i] == k {
        StoredCovers(mid, s, ks, vs, |ks|, i);
      } else {
        StoredFrame(s, ks, us, |ks|, k);
        StoredFrame(mid, ks, vs, |ks|, k);
        StoredFrame(s, ks, vs, |ks|, k);
      }
    }
  }

  /** Writes that store what their slot already holds leave the table as it was. */
  lemma {:induction false} StoredUnchanged(s: seq<bv64>, ks: seq<nat>, vs: seq<bv64>, n: nat)
    requires |ks| == |vs| && n <= |ks| && InRange(s, ks)
    requires forall i :: 0 <= i < n ==> s[ks[i]] == vs[i]
    ensures Stored(s, ks, vs, n) == s
  {
    if n > 0 {
      StoredUnchanged(s, ks, vs, n - 1);
    }
  }
}
