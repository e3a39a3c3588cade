/** A run of map writes `m[k] = v`, applied in order, as both extractors
    perform them: the generation pass filling `biomes`, and the class walk
    filling `accessors`. */
module Assignments {

  /** The keys written, in write order. */
  function KeysOf<K, V>(ws: seq<(K, V)>): (ks: seq<K>)
    ensures |ks| == |ws|
    ensures forall i :: 0 <= i < |ws| ==> ks[i] == ws[i].0
  {
    seq(|ws|, i requires 0 <= i < |ws| => ws[i].0)
  }

  lemma KeysOfAppend<K, V>(a: seq<(K, V)>, b: seq<(K, V)>)
    ensures KeysOf(a + b) == KeysOf(a) + KeysOf(b)
  {
  }

  /** `for ((k, v) in ws) m[k] = v`. */
  function Assign<K(!new), V>(m: map<K, V>, ws: seq<(K, V)>): (r: map<K, V>)
    ensures forall k :: k in r <==> k in m || k in KeysOf(ws)
    decreases |ws|
  {
    if ws == [] then m
    else
      assert forall k :: k in KeysOf(ws) <==> k == ws[0].0 || k in KeysOf(ws[1..]);
      Assign(m[ws[0].0 := ws[0].1], ws[1..])
  }

  /** Writing `a` and then `b` is writing `a + b`. */
  lemma {:induction false} AssignAppend<K(!new), V>(m: map<K, V>, a: seq<(K, V)>, b: seq<(K, V)>)
    ensures Assign(m, a + b) == Assign(Assign(m, a), b)
    decreases |a|
  {
    if a == [] {
      assert a + b == b;
    } else {
      assert (a + b)[0] == a[0];
      assert (a + b)[1..] == a[1..] + b;
      AssignAppend(m[a[0].0 := a[0].1], a[1..], b);
    }
  }

  /** A key no write touches keeps its old value. */
  lemma {:induction false} UnwrittenKeepsValue<K(!new), V>(m: map<K, V>, ws: seq<(K, V)>, k: K)
    requires k in m && k !in KeysOf(ws)
    ensures Assign(m, ws)[k] == m[k]
    decreases |ws|
  {
    if ws != [] {
      assert k != ws[0].0 && k !in KeysOf(ws[1..]) by {
        assert ws[0].0 == KeysOf(ws)[0];
        forall j | 0 <= j < |ws| - 1
          ensures KeysOf(ws[1..])[j] == KeysOf(ws)[j + 1]
        {
        }
      }
      UnwrittenKeepsValue(m[ws[0].0 := ws[0].1], ws[1..], k);
    }
  }

  /** Later writes overwrite earlier ones: a key ends up with the value of
      its last write. */
  lemma {:induction false} LastWriteWins<K(!new), V>(m: map<K, V>, ws: seq<(K, V)>, i: int)
    requires 0 <= i < |ws|
    requires forall j :: i < j < |ws| ==> ws[j].0 != ws[i].0
    ensures Assign(m, ws)[ws[i].0] == ws[i].1
    decreases |ws|
  {
    if i == 0 {
      var m' := m[ws[0].0 := ws[0].1];
      assert ws[0].0 !in KeysOf(ws[1..]) by {
        forall j | 0 <= j < |ws| - 1
          ensures KeysOf(ws[1..])[j] != ws[0].0
        {
          assert ws[1..][j] == ws[j + 1];
        }
      }
      UnwrittenKeepsValue(m', ws[1..], ws[0].0);
    } else {
      assert ws[1..][i - 1] == ws[i];
      LastWriteWins(m[ws[0].0 := ws[0].1], ws[1..], i - 1);
    }
  }

  /** When every write stores the same function of its key, the result does
      not depend on the order, or repetition, of the writes: every written key
      holds that function's value. */
  lemma {:induction false} AssignFunctional<K(!new), V>(m: map<K, V>, ws: seq<(K, V)>, f: K -> V)
    requires forall i :: 0 <= i < |ws| ==> ws[i].1 == f(ws[i].0)
    ensures forall k :: k in KeysOf(ws) ==> Assign(m, ws)[k] == f(k)
  {
    forall k | k in KeysOf(ws)
      ensures Assign(m, ws)[k] == f(k)
    {
      var i :| 0 <= i < |ws| && KeysOf(ws)[i] == k;
      var l := LastWriteIndex(ws, i);
      LastWriteWins(m, ws, l);
    }
  }

  /** Every written key has a last write. */
  lemma {:induction false} LastWriteIndex<K, V>(ws: seq<(K, V)>, i: int) returns (l: int)
    requires 0 <= i < |ws|
    ensures i <= l < |ws| && ws[l].0 == ws[i].0
    ensures forall j :: l < j < |ws| ==> ws[j].0 != ws[i].0
    decreases |ws| - i
  {
    if j :| i < j < |ws| && ws[j].0 == ws[i].0 {
      l := LastWriteIndex(ws, j);
    } else {
      l := i;
    }
  }

  /** Writes to pairwise distinct fresh keys grow the map by one entry each. */
  lemma {:induction false} AssignDistinctSize<K(!new), V>(m: map<K, V>, ws: seq<(K, V)>)
    requires forall i, j :: 0 <= i < j < |ws| ==> ws[i].0 != ws[j].0
    requires forall i :: 0 <= i < |ws| ==> ws[i].0 !in m
    ensures |Assign(m, ws)| == |m| + |ws|
    decreases |ws|
  {
    if ws != [] {
      var m' := m[ws[0].0 := ws[0].1];
      assert |m'| == |m| + 1 by {
        assert m'.Keys == m.Keys + {ws[0].0};
      }
      forall i | 0 <= i < |ws| - 1
        ensures ws[1..][i].0 !in m'
      {
        assert ws[1..][i] == ws[i + 1];
      }
      AssignDistinctSize(m', ws[1..]);
    }
  }

  /** A property of key/value pairs that the initial map and every write
      satisfy holds of every entry of the result. */
  lemma {:induction false} AssignKeepsInvariant<K(!new), V>(m: map<K, V>, ws: seq<(K, V)>, inv: (K, V) -> bool)
    requires forall k :: k in m ==> inv(k, m[k])
    requires forall i :: 0 <= i < |ws| ==> inv(ws[i].0, ws[i].1)
    ensures forall k :: k in Assign(m, ws) ==> inv(k, Assign(m, ws)[k])
    decreases |ws|
  {
    if ws != [] {
      var m' := m[ws[0].0 := ws[0].1];
      forall i | 0 <= i < |ws| - 1
        ensures inv(ws[1..][i].0, ws[1..][i].1)
      {
        assert ws[1..][i] == ws[i + 1];
      }
      AssignKeepsInvariant(m', ws[1..], inv);
    }
  }
}
