/**
  Registration of the plugin's report variables in a print layout
  (`lib/reports/report_manager.py`).  A layout keeps its custom variables as
  two parallel lists, names and values; registering first strips every
  plugin variable from both lists and then appends the register's names with
  their initial values.
*/
module ReportManager {
  import opened Wrappers

  /** The only failure: `list.pop` on the values list with an index past its end. */
  datatype PopError = IndexError

  /** The plugin's variable register: the names it owns, and its initial
      values as (name, value) pairs in the dictionary's iteration order. */
  datatype VariableRegister = VariableRegister(variableNames: seq<string>, initValues: seq<(string, string)>)

  /** The reference meaning of stripping `n`: walk both lists in step and
      drop every pair whose name is `n`; values beyond the names are kept.
      It fails when some occurrence of `n` has no value to pair with. */
  function StripPairs<K(==), V>(n: K, names: seq<K>, values: seq<V>): (r: Option<(seq<K>, seq<V>)>)
    ensures r.Some? ==> n !in r.value.0
    ensures r.Some? ==> forall m :: m in r.value.0 ==> m in names
    ensures r.Some? && |names| <= |values| ==> |names| - |r.value.0| == |values| - |r.value.1|
    decreases |names|
  {
    if names == [] then Some(([], values))
    else if values == [] then (if n in names then None else Some((names, [])))
    else match StripPairs(n, names[1..], values[1..])
      case None => None
      case Some(rest) =>
        if names[0] == n then Some(rest) else Some(([names[0]] + rest.0, [values[0]] + rest.1))
  }

  /** Stripping fails exactly when `n` occurs at an index the values list does not reach. */
  lemma {:induction false} StripPairsFailsIff<K, V>(n: K, names: seq<K>, values: seq<V>)
    ensures StripPairs(n, names, values).None? <==> exists i :: |values| <= i < |names| && names[i] == n
    decreases |names|
  {
    if names != [] && values != [] {
      StripPairsFailsIff(n, names[1..], values[1..]);
      if exists i :: |values| <= i < |names| && names[i] == n {
        var i :| |values| <= i < |names| && names[i] == n;
        assert names[1..][i - 1] == n;
      }
      if exists i :: |values[1..]| <= i < |names[1..]| && names[1..][i] == n {
        var i :| |values[1..]| <= i < |names[1..]| && names[1..][i] == n;
        assert names[i + 1] == n;
      }
    }
  }

  /** Equal-length lists never fail, and stay equal in length. */
  lemma StripPairsOfParallelLists<K, V>(n: K, names: seq<K>, values: seq<V>)
    ensures |names| == |values| ==> (StripPairs(n, names, values).Some?
      && |StripPairs(n, names, values).value.0| == |StripPairs(n, names, values).value.1|)
  {
    StripPairsFailsIff(n, names, values);
  }

  /** Lists without `n` come back unchanged. */
  lemma {:induction false} StripPairsAbsent<K, V>(n: K, names: seq<K>, values: seq<V>)
    requires n !in names
    ensures StripPairs(n, names, values) == Some((names, values))
    decreases |names|
  {
    if names != [] && values != [] {
      assert n !in names[1..];
      StripPairsAbsent(n, names[1..], values[1..]);
      assert [names[0]] + names[1..] == names;
      assert [values[0]] + values[1..] == values;
    }
  }

  /** Popping one occurrence of `n` from both lists does not change what stripping yields. */
  lemma {:induction false} StripPairsPop<K, V>(n: K, names: seq<K>, values: seq<V>, idx: nat)
    requires idx < |names| && idx < |values| && names[idx] == n
    ensures StripPairs(n, names[..idx] + names[idx + 1..], values[..idx] + values[idx + 1..]) == StripPairs(n, names, values)
    decreases idx
  {
    var names', values' := names[..idx] + names[idx + 1..], values[..idx] + values[idx + 1..];
    if idx == 0 {
      assert names' == names[1..] && values' == values[1..];
    } else {
      StripPairsPop(n, names[1..], values[1..], idx - 1);
      assert names'[1..] == names[1..][..idx - 1] + names[1..][idx..];
      assert values'[1..] == values[1..][..idx - 1] + values[1..][idx..];
      assert names'[0] == names[0] && values'[0] == values[0];
    }
  }

  /** Index of the first occurrence of `n` (Python's `list.index`). */
  function IndexOf<K(==)>(names: seq<K>, n: K): (i: nat)
    requires n in names
    ensures i < |names| && names[i] == n
    ensures forall j :: 0 <= j < i ==> names[j] != n
  {
    if names[0] == n then 0 else 1 + IndexOf(names[1..], n)
  }

  /** `remove_var_name_in_collection`: while the name is present, pop its
      first index from the names and then from the values. */
  method RemoveVarNameInCollection(n: string, names: seq<string>, values: seq<string>)
    returns (r: Result<(seq<string>, seq<string>), PopError>)
    ensures r.Ok? <==> StripPairs(n, names, values).Some?
    ensures r.Ok? ==> StripPairs(n, names, values) == Some(r.value)
    ensures r.Ok? ==> n !in r.value.0
  {
    var ns, vs := names, values;
    while n in ns
      invariant StripPairs(n, ns, vs) == StripPairs(n, names, values)
      decreases |ns|
    {
      var idx := IndexOf(ns, n);
      if idx >= |vs| {
        StripPairsFailsIff(n, ns, vs);
        return Err(IndexError);
      }
      StripPairsPop(n, ns, vs, idx);
      ns, vs := ns[..idx] + ns[idx + 1..], vs[..idx] + vs[idx + 1..];
    }
    StripPairsAbsent(n, ns, vs);
    return Ok((ns, vs));
  }

  /** `remove_variables`: strip each of the register's names in turn. */
  function RemoveVariables(pluginNames: seq<string>, names: seq<string>, values: seq<string>): (r: Option<(seq<string>, seq<string>)>)
    ensures r.Some? ==> forall c :: c in pluginNames ==> c !in r.value.0
    ensures r.Some? ==> forall m :: m in r.value.0 ==> m in names
    ensures |names| == |values| ==> r.Some? && |r.value.0| == |r.value.1|
    decreases |pluginNames|
  {
    if pluginNames == [] then Some((names, values))
    else
      StripPairsOfParallelLists(pluginNames[0], names, values);
      match StripPairs(pluginNames[0], names, values)
      case None => None
      case Some(p) =>
        var rest := RemoveVariables(pluginNames[1..], p.0, p.1);
        assert forall c :: c in pluginNames ==> c == pluginNames[0] || c in pluginNames[1..];
        rest
  }

  function Keys(pairs: seq<(string, string)>): (ks: seq<string>)
    ensures |ks| == |pairs| && forall i :: 0 <= i < |pairs| ==> ks[i] == pairs[i].0
  {
    seq(|pairs|, i requires 0 <= i < |pairs| => pairs[i].0)
  }

  function InitialValues(pairs: seq<(string, string)>): (vs: seq<string>)
    ensures |vs| == |pairs| && forall i :: 0 <= i < |pairs| ==> vs[i] == pairs[i].1
  {
    seq(|pairs|, i requires 0 <= i < |pairs| => pairs[i].1)
  }

  /** `register_variables`: the layout's lists with the plugin's variables
      stripped, followed by the register's names and initial values. */
  function RegisterVariables(reg: VariableRegister, names: seq<string>, values: seq<string>): (r: Option<(seq<string>, seq<string>)>)
    ensures r.Some? <==> RemoveVariables(reg.variableNames, names, values).Some?
    ensures r.Some? ==> var kept := RemoveVariables(reg.variableNames, names, values).value;
      r.value == (kept.0 + Keys(reg.initValues), kept.1 + InitialValues(reg.initValues))
  {
    match RemoveVariables(reg.variableNames, names, values)
    case None => None
    case Some(kept) => Some((kept.0 + Keys(reg.initValues), kept.1 + InitialValues(reg.initValues)))
  }

  /** One step of stripping: the head pair is dropped when its name is `n`. */
  lemma StripPairsCons<K, V>(n: K, x: K, xs: seq<K>, v: V, vs: seq<V>)
    ensures StripPairs(n, [x] + xs, [v] + vs) ==
      match StripPairs(n, xs, vs)
      case None => None
      case Some(rest) => if x == n then Some(rest) else Some(([x] + rest.0, [v] + rest.1))
  {
    assert ([x] + xs)[1..] == xs && ([v] + vs)[1..] == vs;
  }

  /** Both lists of two strip results, concatenated; `None` when either failed. */
  function JoinPairs<K, V>(p: Option<(seq<K>, seq<V>)>, q: Option<(seq<K>, seq<V>)>): Option<(seq<K>, seq<V>)>
  {
    if p.Some? && q.Some? then Some((p.value.0 + q.value.0, p.value.1 + q.value.1)) else None
  }

  /** Joining after prefixing a kept head pair is prefixing the join. */
  lemma JoinCons<K, V>(x: K, v: V, p: (seq<K>, seq<V>), q: Option<(seq<K>, seq<V>)>)
    requires q.Some?
    ensures JoinPairs(Some(([x] + p.0, [v] + p.1)), q)
      == Some(([x] + JoinPairs(Some(p), q).value.0, [v] + JoinPairs(Some(p), q).value.1))
  {
    assert [x] + (p.0 + q.value.0) == ([x] + p.0) + q.value.0;
    assert [v] + (p.1 + q.value.1) == ([v] + p.1) + q.value.1;
  }

  /** Stripping distributes over two pairs of parallel lists. */
  lemma {:induction false} StripPairsAppend<K, V>(n: K, a: seq<K>, av: seq<V>, b: seq<K>, bv: seq<V>)
    requires |a| == |av| && |b| == |bv|
    ensures StripPairs(n, a + b, av + bv) == JoinPairs(StripPairs(n, a, av), StripPairs(n, b, bv))
    decreases |a|
  {
    StripPairsOfParallelLists(n, b, bv);
    var q := StripPairs(n, b, bv).value;
    if a == [] {
      assert a + b == b && av + bv == bv;
      assert [] + q.0 == q.0 && [] + q.1 == q.1;
    } else {
      var x, xs, v, vs := a[0], a[1..], av[0], av[1..];
      StripPairsAppend(n, xs, vs, b, bv);
      StripPairsOfParallelLists(n, xs, vs);
      var p' := StripPairs(n, xs, vs).value;
      assert a == [x] + xs && av == [v] + vs;
      assert a + b == [x] + (xs + b) && av + bv == [v] + (vs + bv);
      StripPairsCons(n, x, xs + b, v, vs + bv);
      StripPairsCons(n, x, xs, v, vs);
      if x != n {
        JoinCons(x, v, p', StripPairs(n, b, bv));
      }
    }
  }

  lemma HeadIsMember(s: seq<string>)
    ensures s != [] ==> s[0] in s
  {
  }

  /** Stripping every plugin name from lists made of plugin names only leaves nothing. */
  lemma {:induction false} RemoveVariablesDropsOwn(pluginNames: seq<string>, kept: (seq<string>, seq<string>), ks: seq<string>, vs: seq<string>)
    requires |kept.0| == |kept.1| && |ks| == |vs|
    requires forall c :: c in pluginNames ==> c !in kept.0
    requires forall k :: k in ks ==> k in pluginNames
    ensures RemoveVariables(pluginNames, kept.0 + ks, kept.1 + vs) == Some(kept)
    decreases |pluginNames|, |ks|
  {
    if pluginNames == [] {
      HeadIsMember(ks);
      assert kept.0 + ks == kept.0 && kept.1 + vs == kept.1;
    } else {
      var c := pluginNames[0];
      StripPairsAppend(c, kept.0, kept.1, ks, vs);
      StripPairsAbsent(c, kept.0, kept.1);
      StripPairsOfParallelLists(c, kept.0 + ks, kept.1 + vs);
      StripPairsOfParallelLists(c, ks, vs);
      var q := StripPairs(c, ks, vs).value;
      assert forall k :: k in q.0 ==> k in pluginNames[1..] by {
        forall k | k in q.0
          ensures k in pluginNames[1..]
        {
          assert k in ks && k != c;
          assert k in pluginNames;
        }
      }
      assert forall x :: x in pluginNames[1..] ==> x in pluginNames;
      RemoveVariablesDropsOwn(pluginNames[1..], kept, q.0, q.1);
    }
  }

  /** When the register's initial values only name its own variables,
      registering twice leaves the layout as registering once. */
  lemma RegisterVariablesIdempotent(reg: VariableRegister, names: seq<string>, values: seq<string>)
    requires |names| == |values|
    requires forall i :: 0 <= i < |reg.initValues| ==> reg.initValues[i].0 in reg.variableNames
    ensures var once := RegisterVariables(reg, names, values);
      && once.Some?
      && RegisterVariables(reg, once.value.0, once.value.1) == once
  {
    var kept := RemoveVariables(reg.variableNames, names, values).value;
    var ks, vs := Keys(reg.initValues), InitialValues(reg.initValues);
    assert forall k :: k in ks ==> k in reg.variableNames;
    RemoveVariablesDropsOwn(reg.variableNames, kept, ks, vs);
  }

  // ---------------------------------------------------------------------
  // The surviving pairs keep their order
  // ---------------------------------------------------------------------

  /** `zip(names, values)` of two lists of the same length. */
  function ZipPairs<K, V>(names: seq<K>, values: seq<V>): (z: seq<(K, V)>)
    requires |names| == |values|
    ensures |z| == |names| && forall i :: 0 <= i < |z| ==> z[i] == (names[i], values[i])
  {
    seq(|names|, i requires 0 <= i < |names| && |names| == |values| => (names[i], values[i]))
  }

  /** The names and the values of a list of pairs, as two parallel lists. */
  function Unzip<K, V>(pairs: seq<(K, V)>): (r: (seq<K>, seq<V>))
    ensures |r.0| == |pairs| && |r.1| == |pairs|
    ensures forall i :: 0 <= i < |pairs| ==> r.0[i] == pairs[i].0 && r.1[i] == pairs[i].1
  {
    (seq(|pairs|, i requires 0 <= i < |pairs| => pairs[i].0), seq(|pairs|, i requires 0 <= i < |pairs| => pairs[i].1))
  }

  /** The reference filter: the pairs whose name is not owned, in their original order. */
  function Unowned<K(==), V>(owned: seq<K>, pairs: seq<(K, V)>): (kept: seq<(K, V)>)
    ensures |kept| <= |pairs|
  {
    if pairs == [] then []
    else (if pairs[0].0 in owned then [] else [pairs[0]]) + Unowned(owned, pairs[1..])
  }

  lemma UnzipCons<K, V>(p: (K, V), ps: seq<(K, V)>)
    ensures Unzip([p] + ps) == ([p.0] + Unzip(ps).0, [p.1] + Unzip(ps).1)
  {
    assert Unzip([p] + ps).0 == [p.0] + Unzip(ps).0;
    assert Unzip([p] + ps).1 == [p.1] + Unzip(ps).1;
  }

  lemma UnzipAppend<K, V>(ps: seq<(K, V)>, qs: seq<(K, V)>)
    ensures Unzip(ps + qs) == (Unzip(ps).0 + Unzip(qs).0, Unzip(ps).1 + Unzip(qs).1)
  {
    assert Unzip(ps + qs).0 == Unzip(ps).0 + Unzip(qs).0;
    assert Unzip(ps + qs).1 == Unzip(ps).1 + Unzip(qs).1;
  }

  /** Zipping and unzipping undo each other. */
  lemma ZipUnzip<K, V>(names: seq<K>, values: seq<V>, pairs: seq<(K, V)>)
    requires |names| == |values|
    ensures Unzip(ZipPairs(names, values)) == (names, values)
    ensures ZipPairs(Unzip(pairs).0, Unzip(pairs).1) == pairs
  {
    assert Unzip(ZipPairs(names, values)).0 == names;
    assert Unzip(ZipPairs(names, values)).1 == values;
  }

  /** Owning nothing keeps every pair. */
  lemma {:induction false} UnownedNone<K, V>(pairs: seq<(K, V)>)
    ensures Unowned([], pairs) == pairs
  {
    if pairs != [] {
      UnownedNone(pairs[1..]);
      assert [pairs[0]] + pairs[1..] == pairs;
    }
  }

  /** Filtering by two owner lists in turn is filtering by both at once. */
  lemma {:induction false} UnownedSplit<K, V>(a: seq<K>, b: seq<K>, pairs: seq<(K, V)>)
    ensures Unowned(a + b, pairs) == Unowned(b, Unowned(a, pairs))
  {
    if pairs != [] {
      var p, rest := pairs[0], pairs[1..];
      UnownedSplit(a, b, rest);
      assert p.0 in a + b <==> p.0 in a || p.0 in b;
      var x := Unowned(a, rest);
      if p.0 in a {
        assert Unowned(a, pairs) == [] + x == x;
        assert Unowned(a + b, pairs) == [] + Unowned(a + b, rest);
      } else {
        var head := if p.0 in b then [] else [p];
        assert Unowned(a, pairs) == [p] + x;
        assert ([p] + x)[0] == p && ([p] + x)[1..] == x;
        assert Unowned(b, [p] + x) == head + Unowned(b, x);
        assert Unowned(a + b, pairs) == head + Unowned(a + b, rest);
      }
    }
  }

  /** Stripping `n` from parallel lists keeps exactly the pairs not named
      `n`, each name still beside its own value, in their original order. */
  lemma {:induction false} StripPairsKeepsOrder<K, V>(n: K, names: seq<K>, values: seq<V>)
    requires |names| == |values|
    ensures StripPairs(n, names, values) == Some(Unzip(Unowned([n], ZipPairs(names, values))))
    decreases |names|
  {
    var z := ZipPairs(names, values);
    if names == [] {
      assert Unzip(Unowned([n], z)).0 == [] && Unzip(Unowned([n], z)).1 == [];
    } else {
      StripPairsKeepsOrder(n, names[1..], values[1..]);
      assert z[1..] == ZipPairs(names[1..], values[1..]);
      var rest := Unowned([n], z[1..]);
      assert z[0] == (names[0], values[0]);
      if names[0] == n {
        assert Unowned([n], z) == [] + rest == rest;
      } else {
        assert names[0] !in [n];
        assert Unowned([n], z) == [z[0]] + rest;
        UnzipCons(z[0], rest);
      }
    }
  }

  /** Removing the register's names from parallel lists keeps exactly the
      pairs with other names, in their original order. */
  lemma {:induction false} RemoveVariablesKeepsOrder(pluginNames: seq<string>, names: seq<string>, values: seq<string>)
    requires |names| == |values|
    ensures RemoveVariables(pluginNames, names, values) == Some(Unzip(Unowned(pluginNames, ZipPairs(names, values))))
    decreases |pluginNames|
  {
    var z := ZipPairs(names, values);
    if pluginNames == [] {
      UnownedNone(z);
      ZipUnzip(names, values, z);
    } else {
      var c := pluginNames[0];
      StripPairsKeepsOrder(c, names, values);
      var once := Unowned([c], z);
      var p := Unzip(once);
      RemoveVariablesKeepsOrder(pluginNames[1..], p.0, p.1);
      ZipUnzip(p.0, p.1, once);
      UnownedSplit([c], pluginNames[1..], z);
      assert [c] + pluginNames[1..] == pluginNames;
    }
  }

  /** Registering on parallel lists leaves the other variables' pairs in
      their original order, followed by the register's initial pairs. */
  lemma RegisterVariablesLayout(reg: VariableRegister, names: seq<string>, values: seq<string>)
    requires |names| == |values|
    ensures RegisterVariables(reg, names, values) == Some(Unzip(Unowned(reg.variableNames, ZipPairs(names, values)) + reg.initValues))
  {
    RemoveVariablesKeepsOrder(reg.variableNames, names, values);
    var kept := Unowned(reg.variableNames, ZipPairs(names, values));
    UnzipAppend(kept, reg.initValues);
    assert Unzip(reg.initValues).0 == Keys(reg.initValues);
    assert Unzip(reg.initValues).1 == InitialValues(reg.initValues);
  }
}
