/** Facts about sequences and dicts shared by several parts of the model. */
module Collections {

  /** `ps` lists positions in strictly increasing order. */
  ghost predicate Increasing(ps: seq<nat>) {
    forall k, l :: 0 <= k < l < |ps| ==> ps[k] < ps[l]
  }

  /** Positions below `n` stay increasing with `n` appended, and `n` is not
      among them. */
  lemma IncreasingSnoc(qs: seq<nat>, n: nat)
    requires Increasing(qs)
    requires forall k :: 0 <= k < |qs| ==> qs[k] < n
    ensures Increasing(qs + [n])
    ensures n !in qs
  {
  }

  /** One step of an order-preserving filter: `out` is `prior` extended by
      an element related to the last of `xs` exactly when `keep` holds of it.
      Given positions `qs` of the kept elements among all but the last, the
      positions among all of `xs` extend `qs` by the last index when kept. */
  lemma FilterStep<T, U>(xs: seq<T>, prior: seq<U>, out: seq<U>, qs: seq<nat>,
                         keep: T -> bool, rel: (T, U) -> bool)
    requires |xs| > 0
    requires keep(xs[|xs| - 1]) ==> |out| == |prior| + 1 && out[..|prior|] == prior && rel(xs[|xs| - 1], out[|prior|])
    requires !keep(xs[|xs| - 1]) ==> out == prior
    requires |qs| == |prior| && Increasing(qs)
    requires forall k :: 0 <= k < |qs| ==> qs[k] < |xs| - 1 && rel(xs[..|xs| - 1][qs[k]], prior[k])
    requires forall i :: 0 <= i < |xs| - 1 ==> (i in qs <==> keep(xs[..|xs| - 1][i]))
    ensures var ps := if keep(xs[|xs| - 1]) then qs + [|xs| - 1] else qs;
      && |ps| == |out|
      && Increasing(ps)
      && (forall k :: 0 <= k < |ps| ==> ps[k] < |xs| && rel(xs[ps[k]], out[k]))
      && (forall i :: 0 <= i < |xs| ==> (i in ps <==> keep(xs[i])))
  {
    var n := |xs| - 1;
    IncreasingSnoc(qs, n);
    var ps := if keep(xs[n]) then qs + [n] else qs;
    forall k | 0 <= k < |ps| ensures ps[k] < |xs| && rel(xs[ps[k]], out[k]) {
      if k < |qs| {
        assert out[k] == prior[k];
        assert xs[..n][qs[k]] == xs[qs[k]];
      }
    }
    forall i | 0 <= i < |xs| ensures i in ps <==> keep(xs[i]) {
      if i < n {
        assert i in ps <==> i in qs;
        assert xs[..n][i] == xs[i];
      }
    }
  }

  /** Appending is associative. */
  lemma Regroup<T>(a: seq<T>, b: seq<T>, c: seq<T>)
    ensures (a + b) + c == a + (b + c)
  {
  }

  /** Position `i` carries the last pair in `pairs` with its key. */
  ghost predicate LastWithKey<K, V>(pairs: seq<(K, V)>, i: int)
    requires 0 <= i < |pairs|
  {
    forall j :: i < j < |pairs| ==> pairs[j].0 != pairs[i].0
  }

  /** The dictionary built by assigning `m[k] = v` for every pair in order:
      a key maps to the value of its last pair. */
  function Collect<K, V>(pairs: seq<(K, V)>): (m: map<K, V>)
    ensures m.Keys == set i | 0 <= i < |pairs| :: pairs[i].0
    ensures forall i :: 0 <= i < |pairs| && LastWithKey(pairs, i) ==> m[pairs[i].0] == pairs[i].1
  {
    if |pairs| == 0 then map[]
    else
      var init := pairs[..|pairs| - 1];
      var last := pairs[|pairs| - 1];
      var m := Collect(init)[last.0 := last.1];
      LastWithKeyInInit(pairs);
      m
  }

  /** A pair that is last with its key stays so once the final pair is dropped. */
  lemma LastWithKeyInInit<K, V>(pairs: seq<(K, V)>)
    requires |pairs| > 0
    ensures forall i :: 0 <= i < |pairs| - 1 ==> pairs[..|pairs| - 1][i] == pairs[i]
    ensures forall i :: 0 <= i < |pairs| - 1 && LastWithKey(pairs, i) ==> LastWithKey(pairs[..|pairs| - 1], i)
  {
  }
}
