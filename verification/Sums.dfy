/** Sums of the values of a finite map. */
module Sums {

  ghost function SumOver<K(!new)>(f: map<K, nat>, keys: set<K>): nat
    requires keys <= f.Keys
    decreases |keys|
  {
    if keys == {} then 0
    else
      var a :| a in keys;
      f[a] + SumOver(f, keys - {a})
  }

  ghost function SumValues<K(!new)>(f: map<K, nat>): nat {
    SumOver(f, f.Keys)
  }

  /** Any key may be taken out first. */
  lemma {:induction false} SumOverPick<K(!new)>(f: map<K, nat>, keys: set<K>, a: K)
    requires keys <= f.Keys && a in keys
    ensures SumOver(f, keys) == f[a] + SumOver(f, keys - {a})
    decreases |keys|
  {
    var c :| c in keys && SumOver(f, keys) == f[c] + SumOver(f, keys - {c});
    if c != a {
      SumOverPick(f, keys - {c}, a);
      SumOverPick(f, keys - {a}, c);
      assert keys - {c} - {a} == keys - {a} - {c};
    }
  }

  lemma {:induction false} SumOverSame<K(!new)>(f: map<K, nat>, g: map<K, nat>, keys: set<K>)
    requires keys <= f.Keys && keys <= g.Keys
    requires forall k :: k in keys ==> f[k] == g[k]
    ensures SumOver(f, keys) == SumOver(g, keys)
    decreases |keys|
  {
    if keys != {} {
      var a :| a in keys;
      SumOverPick(f, keys, a);
      SumOverPick(g, keys, a);
      SumOverSame(f, g, keys - {a});
    }
  }

  lemma SumValuesCredit<K(!new)>(b: map<K, nat>, a: K, v: nat)
    ensures SumValues(b[a := (if a in b then b[a] else 0) + v]) == SumValues(b) + v
  {
    var after := b[a := (if a in b then b[a] else 0) + v];
    var others := b.Keys - {a};
    SumOverPick(after, after.Keys, a);
    assert after.Keys - {a} == others;
    SumOverSame(after, b, others);
    if a in b {
      SumOverPick(b, b.Keys, a);
    } else {
      assert others == b.Keys;
    }
  }

  lemma {:induction false} SumOverSubset<K(!new)>(f: map<K, nat>, a: set<K>, b: set<K>)
    requires a <= b <= f.Keys
    ensures SumOver(f, a) <= SumOver(f, b)
    decreases |a|
  {
    if a != {} {
      var x :| x in a;
      SumOverPick(f, a, x);
      SumOverPick(f, b, x);
      SumOverSubset(f, a - {x}, b - {x});
    }
  }

  ghost function SumAt<K(!new)>(f: map<K, nat>, keys: seq<K>): nat
    requires forall i :: 0 <= i < |keys| ==> keys[i] in f
  {
    if |keys| == 0 then 0 else SumAt(f, keys[..|keys| - 1]) + f[keys[|keys| - 1]]
  }

  ghost predicate Distinct<K(!new)>(keys: seq<K>) {
    forall i, j :: 0 <= i < j < |keys| ==> keys[i] != keys[j]
  }

  ghost function Members<K(!new)>(keys: seq<K>): set<K> {
    set k | k in keys
  }

  lemma {:induction false} DistinctKeysSum<K(!new)>(f: map<K, nat>, keys: seq<K>)
    requires (forall i :: 0 <= i < |keys| ==> keys[i] in f) && Distinct(keys)
    ensures SumAt(f, keys) == SumOver(f, Members(keys)) <= SumValues(f)
  {
    var n := |keys| - 1;
    SumOverSubset(f, Members(keys), f.Keys);
    if |keys| > 0 {
      DistinctKeysSum(f, keys[..n]);
      SumOverPick(f, Members(keys), keys[n]);
      assert keys == keys[..n] + [keys[n]];
      assert Members(keys) - {keys[n]} == Members(keys[..n]);
    } else {
      assert Members(keys) == {};
    }
  }
}
