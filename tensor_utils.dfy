/**
 * The logic of `tensor_utils.py`: structural equality of nested structures,
 * ordered dictionaries of named variables, sorted conversion of dictionaries,
 * the zero-if-any-non-finite guard, the scalar test, and the comparison of
 * dimensions and shapes whose sizes may be unknown.
 *
 * Tensors are abstract: a leaf type `T`, the per-leaf "all elements finite"
 * test and `zeros_like` are parameters of the functions that need them.
 */
module TensorUtils {
  import opened Wrappers
  import opened Nest
  import opened LexOrder

  // ---------------------------------------------------------------------------
  // check_nested_equal
  // ---------------------------------------------------------------------------

  /** The two errors `check_nested_equal` raises. */
  datatype NestError<T> = StructureMismatch | ValueMismatch(x: T, y: T)

  /** Position `i` is the first one at which `eq` fails on the zipped leaves. */
  predicate FirstMismatchAt<T>(xs: seq<T>, ys: seq<T>, eq: (T, T) -> bool, i: int)
  {
    0 <= i < |xs| && i < |ys| && !eq(xs[i], ys[i]) &&
    forall j :: 0 <= j < i ==> eq(xs[j], ys[j])
  }

  /** `eq` holds at every position of the zipped leaves. */
  predicate AllPairsEqual<T>(xs: seq<T>, ys: seq<T>, eq: (T, T) -> bool)
  {
    forall i :: 0 <= i < |xs| && i < |ys| ==> eq(xs[i], ys[i])
  }

  /**
   * Passes iff `x` and `y` have the same structure and `eq` holds of every
   * pair of leaves at the same flattened position; a structural difference is
   * reported before any leaf is compared, and a value failure reports the
   * first pair that fails.
   */
  method CheckNestedEqual<T>(x: Nest<T>, y: Nest<T>, eq: (T, T) -> bool) returns (r: Outcome<NestError<T>>)
    ensures r == Fail(StructureMismatch) <==> !SameStructure(x, y)
    ensures SameStructure(x, y) ==> |Flatten(x)| == |Flatten(y)|
    ensures r == Pass <==> SameStructure(x, y) && AllPairsEqual(Flatten(x), Flatten(y), eq)
    ensures r.Fail? && r.error.ValueMismatch? ==>
      SameStructure(x, y) &&
      exists i :: FirstMismatchAt(Flatten(x), Flatten(y), eq, i) &&
                  r.error == ValueMismatch(Flatten(x)[i], Flatten(y)[i])
  {
    if !SameStructure(x, y) {
      return Fail(StructureMismatch);
    }
    var flatX := Flatten(x);
    var flatY := Flatten(y);
    SameStructureFlattenLength(x, y);
    var i := 0;
    while i < |flatX|
      invariant 0 <= i <= |flatX|
      invariant forall j :: 0 <= j < i ==> eq(flatX[j], flatY[j])
    {
      if !eq(flatX[i], flatY[i]) {
        assert FirstMismatchAt(flatX, flatY, eq, i);
        return Fail(ValueMismatch(flatX[i], flatY[i]));
      }
      i := i + 1;
    }
    return Pass;
  }

  // ---------------------------------------------------------------------------
  // to_var_dict
  // ---------------------------------------------------------------------------

  /** A variable: its full name (with the output slot, as in "w:0") and its value. */
  datatype Variable<V> = Variable(name: string, value: V)

  /** The two errors `to_var_dict` raises. */
  datatype VarDictError = UnexpectedName(name: string) | DuplicateName(name: string)

  /** Python's `name[-2:]`: the last two characters, or all of a shorter name. */
  function LastTwo(name: string): string
  {
    if |name| < 2 then name else name[|name| - 2..]
  }

  /** Python's `name[:-2]`: all but the last two characters (empty for a shorter name). */
  function DropLastTwo(name: string): string
  {
    if |name| < 2 then [] else name[..|name| - 2]
  }

  /** `name[-2:]` has min(2, len(name)) characters, and `name[:-2] + name[-2:]`
      gives the name back. */
  lemma SplitLastTwo(name: string)
    ensures |LastTwo(name)| == if |name| < 2 then |name| else 2
    ensures |DropLastTwo(name)| == |name| - |LastTwo(name)|
    ensures DropLastTwo(name) + LastTwo(name) == name
  {
  }

  /** The name passes the test `name[-2:] == ':0'`. */
  predicate HasSlotSuffix(name: string)
  {
    LastTwo(name) == ":0"
  }

  /** The suffix test holds exactly of the names of the form `base + ":0"`,
      and stripping gives back `base`. */
  lemma SlotSuffixExactly(name: string)
    ensures HasSlotSuffix(name) <==> exists base: string :: name == base + ":0"
    ensures forall base: string :: name == base + ":0" ==> DropLastTwo(name) == base
  {
    if HasSlotSuffix(name) {
      assert name == DropLastTwo(name) + ":0";
    }
    forall base: string | name == base + ":0" ensures HasSlotSuffix(name) && DropLastTwo(name) == base {
      assert name[|name| - 2..] == ":0";
      assert name[..|name| - 2] == base;
    }
  }

  /** Each of the first `n` names ends in ":0" and their stripped names are
      pairwise distinct: `to_var_dict` gets past the first `n` variables. */
  predicate WellNamedBefore<V>(vars: seq<Variable<V>>, n: nat)
    requires n <= |vars|
  {
    (forall i :: 0 <= i < n ==> HasSlotSuffix(vars[i].name)) &&
    (forall i, j :: 0 <= i < j < n ==> DropLastTwo(vars[i].name) != DropLastTwo(vars[j].name))
  }

  lemma WellNamedExtend<V>(vars: seq<Variable<V>>, n: nat)
    requires n < |vars| && WellNamedBefore(vars, n) && HasSlotSuffix(vars[n].name)
    requires forall j :: 0 <= j < n ==> DropLastTwo(vars[j].name) != DropLastTwo(vars[n].name)
    ensures WellNamedBefore(vars, n + 1)
  {
  }

  /** Exactly the inputs `to_var_dict` accepts. */
  predicate WellNamed<V>(vars: seq<Variable<V>>)
  {
    WellNamedBefore(vars, |vars|)
  }

  /** The value of the first entry with key `k` in an association list. */
  function Lookup<K(==), V>(entries: seq<(K, V)>, k: K): (r: Option<V>)
  {
    if entries == [] then None
    else if entries[0].0 == k then Some(entries[0].1)
    else Lookup(entries[1..], k)
  }

  /** The lookup finds nothing exactly when no entry has the key. */
  lemma {:induction false} LookupMissing<K, V>(entries: seq<(K, V)>, k: K)
    ensures Lookup(entries, k).None? <==> forall i :: 0 <= i < |entries| ==> entries[i].0 != k
  {
    if entries != [] {
      LookupMissing(entries[1..], k);
      assert forall i :: 1 <= i < |entries| ==> entries[i] == entries[1..][i - 1];
    }
  }

  /** In a list with distinct keys, looking up the key of entry `i` finds entry `i`. */
  lemma {:induction false} LookupDistinct<K, V>(entries: seq<(K, V)>, i: int)
    requires 0 <= i < |entries|
    requires forall a, b :: 0 <= a < b < |entries| ==> entries[a].0 != entries[b].0
    ensures Lookup(entries, entries[i].0) == Some(entries[i].1)
  {
    if i > 0 {
      LookupDistinct(entries[1..], i - 1);
    }
  }

  /** The keys of an association list. */
  ghost function KeySet<K, V>(entries: seq<(K, V)>): set<K>
  {
    set j | 0 <= j < |entries| :: entries[j].0
  }

  lemma KeySetAppend<K, V>(entries: seq<(K, V)>, e: (K, V))
    ensures KeySet(entries + [e]) == KeySet(entries) + {e.0}
  {
    var s := entries + [e];
    forall k | k in KeySet(s) ensures k in KeySet(entries) + {e.0} {
      var j :| 0 <= j < |s| && s[j].0 == k;
      if j < |entries| { assert entries[j].0 == k; }
    }
    forall k | k in KeySet(entries) ensures k in KeySet(s) {
      var j :| 0 <= j < |entries| && entries[j].0 == k;
      assert s[j].0 == k;
    }
    assert s[|entries|].0 == e.0;
  }

  lemma {:induction false} LookupEach<K, V>(entries: seq<(K, V)>)
    requires forall a, b :: 0 <= a < b < |entries| ==> entries[a].0 != entries[b].0
    ensures forall i :: 0 <= i < |entries| ==> Lookup(entries, entries[i].0) == Some(entries[i].1)
  {
    forall i | 0 <= i < |entries| ensures Lookup(entries, entries[i].0) == Some(entries[i].1) {
      LookupDistinct(entries, i);
    }
  }

  /**
   * `to_var_dict`: succeeds iff the variables are well named, and then keys
   * each variable by its name without ":0", one entry per input in input
   * order, with distinct keys. Otherwise it reports the first variable that
   * breaks a rule: one whose name lacks the suffix, or one whose stripped name
   * an earlier variable already has.
   */
  method ToVarDict<V>(vars: seq<Variable<V>>) returns (r: Result<seq<(string, Variable<V>)>, VarDictError>)
    ensures r.Success? <==> WellNamed(vars)
    ensures r.Success? ==>
      |r.value| == |vars| &&
      (forall i :: 0 <= i < |vars| ==> r.value[i] == (DropLastTwo(vars[i].name), vars[i])) &&
      (forall i, j :: 0 <= i < j < |r.value| ==> r.value[i].0 != r.value[j].0) &&
      (forall i :: 0 <= i < |vars| ==> Lookup(r.value, DropLastTwo(vars[i].name)) == Some(vars[i]))
    ensures r.Failure? && r.error.UnexpectedName? ==>
      exists i :: 0 <= i < |vars| && WellNamedBefore(vars, i) &&
                  !HasSlotSuffix(vars[i].name) && r.error.name == vars[i].name
    ensures r.Failure? && r.error.DuplicateName? ==>
      exists i, j :: 0 <= j < i < |vars| && WellNamedBefore(vars, i) && HasSlotSuffix(vars[i].name) &&
                     DropLastTwo(vars[i].name) == DropLastTwo(vars[j].name) &&
                     r.error.name == DropLastTwo(vars[i].name)
  {
    var tuples: seq<(string, Variable<V>)> := [];
    var seenNames: set<string> := {};
    for i := 0 to |vars|
      invariant |tuples| == i
      invariant forall j :: 0 <= j < i ==> tuples[j] == (DropLastTwo(vars[j].name), vars[j])
      invariant WellNamedBefore(vars, i)
      invariant seenNames == KeySet(tuples)
    {
      var v := vars[i];
      if LastTwo(v.name) != ":0" {
        assert !HasSlotSuffix(vars[i].name);
        return Failure(UnexpectedName(v.name));
      }
      var name := DropLastTwo(v.name);
      if name in seenNames {
        var j :| 0 <= j < i && tuples[j].0 == name;
        return Failure(DuplicateName(name));
      }
      assert forall j :: 0 <= j < i ==> DropLastTwo(vars[j].name) != name by {
        forall j | 0 <= j < i ensures DropLastTwo(vars[j].name) != name {
          assert tuples[j].0 == DropLastTwo(vars[j].name);
        }
      }
      WellNamedExtend(vars, i);
      KeySetAppend(tuples, (name, v));
      tuples := tuples + [(name, v)];
      seenNames := seenNames + {name};
    }
    LookupEach(tuples);
    forall i | 0 <= i < |vars| ensures Lookup(tuples, DropLastTwo(vars[i].name)) == Some(vars[i]) {
      assert tuples[i] == (DropLastTwo(vars[i].name), vars[i]);
    }
    return Success(tuples);
  }

  // ---------------------------------------------------------------------------
  // to_odict
  // ---------------------------------------------------------------------------

  /** A dictionary key: a string, or a key of any other Python type. */
  datatype Key = StrKey(s: string) | OtherKey(id: int)

  /** The argument of `to_odict`: an `OrderedDict` (its entries in order), a
      plain `dict`, or a value that is not a dictionary. */
  datatype PyValue<V> = OrderedDict(entries: seq<(Key, V)>) | Dict(items: map<Key, V>) | NotADict

  /** The two errors `to_odict` raises. */
  datatype ODictError = NotADictError | NonStringKey

  /** Python's `<` on keys, defined here for string keys only. */
  predicate KeyLess(a: Key, b: Key)
  {
    a.StrKey? && b.StrKey? && StrLess(a.s, b.s)
  }

  lemma KeyLessIrreflexive(a: Key)
    ensures !KeyLess(a, a)
  {
    if a.StrKey? { StrLessIrreflexive(a.s); }
  }

  lemma KeyLessAsymmetric(a: Key, b: Key)
    ensures !(KeyLess(a, b) && KeyLess(b, a))
  {
    if a.StrKey? && b.StrKey? { StrLessAsymmetric(a.s, b.s); }
  }

  predicate AllStringKeys<V>(s: seq<(Key, V)>)
  {
    forall i :: 0 <= i < |s| ==> s[i].0.StrKey?
  }

  predicate DistinctKeys<V>(s: seq<(Key, V)>)
  {
    forall i, j :: 0 <= i < j < |s| ==> s[i].0 != s[j].0
  }

  /** Entries in strictly increasing key order. */
  predicate StrictlySortedByKey<V>(s: seq<(Key, V)>)
  {
    forall i, j :: 0 <= i < j < |s| ==> KeyLess(s[i].0, s[j].0)
  }

  /** Insert `e` into a sorted list whose keys all differ from `e`'s. */
  function InsertByKey<V>(e: (Key, V), s: seq<(Key, V)>): (r: seq<(Key, V)>)
    requires e.0.StrKey? && AllStringKeys(s) && StrictlySortedByKey(s)
    requires forall i :: 0 <= i < |s| ==> s[i].0 != e.0
    ensures AllStringKeys(r) && StrictlySortedByKey(r)
    ensures multiset(r) == multiset(s) + multiset{e}
    decreases s
  {
    if s == [] then [e]
    else if KeyLess(e.0, s[0].0) then
      assert forall i :: 0 < i < |s| ==> KeyLess(s[0].0, s[i].0);
      InsertAllAbove(e, s);
      [e] + s
    else
      StrLessTotal(e.0.s, s[0].0.s);
      var rest := InsertByKey(e, s[1..]);
      assert s == [s[0]] + s[1..];
      InsertRestAbove(s[0], e, s[1..], rest);
      [s[0]] + rest
  }

  lemma InsertAllAbove<V>(e: (Key, V), s: seq<(Key, V)>)
    requires s != [] && KeyLess(e.0, s[0].0) && StrictlySortedByKey(s)
    ensures forall i :: 0 <= i < |s| ==> KeyLess(e.0, s[i].0)
  {
    forall i | 0 < i < |s| ensures KeyLess(e.0, s[i].0) {
      StrLessTransitive(e.0.s, s[0].0.s, s[i].0.s);
    }
  }

  lemma InsertRestAbove<V>(h: (Key, V), e: (Key, V), t: seq<(Key, V)>, rest: seq<(Key, V)>)
    requires KeyLess(h.0, e.0)
    requires forall i :: 0 <= i < |t| ==> KeyLess(h.0, t[i].0)
    requires multiset(rest) == multiset(t) + multiset{e}
    requires StrictlySortedByKey(rest)
    ensures StrictlySortedByKey([h] + rest)
  {
    forall i | 0 <= i < |rest| ensures KeyLess(h.0, rest[i].0) {
      assert rest[i] in multiset(rest);
      if rest[i] != e {
        assert rest[i] in multiset(t);
        var k :| 0 <= k < |t| && t[k] == rest[i];
      }
    }
  }

  /** Sorts entries with distinct string keys (Python's `sorted` on the
      `(key, value)` pairs: the keys differ, so values are never compared). */
  function SortByKey<V>(items: seq<(Key, V)>): (r: seq<(Key, V)>)
    requires AllStringKeys(items) && DistinctKeys(items)
    ensures AllStringKeys(r) && StrictlySortedByKey(r)
    ensures multiset(r) == multiset(items)
    decreases |items|
  {
    if items == [] then []
    else
      var sorted := SortByKey(items[1..]);
      assert forall i :: 0 <= i < |sorted| ==> sorted[i].0 != items[0].0 by {
        forall i | 0 <= i < |sorted| ensures sorted[i].0 != items[0].0 {
          assert sorted[i] in multiset(items[1..]);
          var k :| 0 <= k < |items[1..]| && items[1..][k] == sorted[i];
          assert items[k + 1] == sorted[i];
        }
      }
      assert items == [items[0]] + items[1..];
      InsertByKey(items[0], sorted)
  }

  /** Two strictly sorted lists with the same entries start with the same entry. */
  lemma SortedHeadsEqual<V>(s: seq<(Key, V)>, t: seq<(Key, V)>)
    requires StrictlySortedByKey(s) && StrictlySortedByKey(t)
    requires multiset(s) == multiset(t) && s != []
    ensures t != [] && s[0] == t[0]
  {
    assert s[0] in multiset(t);
    assert t[0] in multiset(s);
    var a :| 0 <= a < |t| && t[a] == s[0];
    var b :| 0 <= b < |s| && s[b] == t[0];
    assert a != 0 ==> KeyLess(t[0].0, s[0].0);
    assert b != 0 ==> KeyLess(s[0].0, t[0].0);
    KeyLessIrreflexive(s[0].0);
    KeyLessAsymmetric(s[0].0, t[0].0);
  }

  /** Two strictly sorted lists with the same entries are the same list: the
      result of `to_odict` does not depend on the order the dictionary is read in. */
  lemma {:induction false} StrictlySortedUnique<V>(s: seq<(Key, V)>, t: seq<(Key, V)>)
    requires StrictlySortedByKey(s) && StrictlySortedByKey(t)
    requires multiset(s) == multiset(t)
    ensures s == t
    decreases |s|
  {
    if s != [] {
      SortedHeadsEqual(s, t);
      assert s == [s[0]] + s[1..] && t == [t[0]] + t[1..];
      assert multiset(s[1..]) == multiset(s) - multiset{s[0]};
      assert multiset(t[1..]) == multiset(t) - multiset{t[0]};
      StrictlySortedUnique(s[1..], t[1..]);
    } else {
      assert |t| == |multiset(t)|;
    }
  }

  /** `dict(b=2, a=1)` sorts to `[("a", 1), ("b", 2)]`. */
  lemma SortByKeyExample()
    ensures SortByKey([(StrKey("b"), 2), (StrKey("a"), 1)]) == [(StrKey("a"), 1), (StrKey("b"), 2)]
  {
    var items := [(StrKey("b"), 2), (StrKey("a"), 1)];
    var expected := [(StrKey("a"), 1), (StrKey("b"), 2)];
    assert StrLess("a", "b");
    assert multiset(items) == multiset(expected);
    StrictlySortedUnique(SortByKey(items), expected);
  }

  /**
   * `to_odict`: an `OrderedDict` comes back unchanged; a value that is not a
   * dictionary and a dictionary with a key that is not a string are errors;
   * otherwise the result holds exactly the dictionary's entries, in strictly
   * increasing key order.
   */
  method ToODict<V>(d: PyValue<V>) returns (r: Result<seq<(Key, V)>, ODictError>)
    ensures d.OrderedDict? ==> r == Success(d.entries)
    ensures d.NotADict? ==> r == Failure(NotADictError)
    ensures d.Dict? ==> (r.Failure? <==> exists k :: k in d.items && !k.StrKey?)
    ensures d.Dict? && r.Failure? ==> r.error == NonStringKey
    ensures d.Dict? && r.Success? ==>
      AllStringKeys(r.value) && StrictlySortedByKey(r.value) &&
      |r.value| == |d.items| &&
      (forall i :: 0 <= i < |r.value| ==> r.value[i].0 in d.items && d.items[r.value[i].0] == r.value[i].1) &&
      (forall k :: k in d.items ==> (k, d.items[k]) in r.value)
  {
    if d.OrderedDict? {
      return Success(d.entries);
    }
    if d.NotADict? {
      return Failure(NotADictError);
    }
    var m := d.items;
    var items: seq<(Key, V)> := [];
    var remaining := m.Keys;
    while remaining != {}
      invariant remaining <= m.Keys
      invariant AllStringKeys(items) && DistinctKeys(items)
      invariant forall i :: 0 <= i < |items| ==> items[i].0 in m && items[i].0 !in remaining && m[items[i].0] == items[i].1
      invariant forall k :: k in m && k !in remaining ==> k.StrKey? && (k, m[k]) in items
      decreases remaining
    {
      var k :| k in remaining;
      if !k.StrKey? {
        return Failure(NonStringKey);
      }
      items := items + [(k, m[k])];
      remaining := remaining - {k};
    }
    var sorted := SortByKey(items);
    forall i | 0 <= i < |sorted| ensures sorted[i].0 in m && m[sorted[i].0] == sorted[i].1 {
      assert sorted[i] in multiset(items);
      var j :| 0 <= j < |items| && items[j] == sorted[i];
    }
    forall k | k in m ensures (k, m[k]) in sorted {
      assert (k, m[k]) in multiset(items);
    }
    KeysCountEntries(m, sorted);
    return Success(sorted);
  }

  /** A list with distinct keys that lists exactly the entries of `m` has one entry per key. */
  lemma KeysCountEntries<V>(m: map<Key, V>, s: seq<(Key, V)>)
    requires StrictlySortedByKey(s)
    requires forall i :: 0 <= i < |s| ==> s[i].0 in m
    requires forall k :: k in m ==> (k, m[k]) in s
    ensures |s| == |m|
  {
    var keys := set i | 0 <= i < |s| :: s[i].0;
    assert keys == m.Keys by {
      forall k | k in m ensures k in keys {
        var i :| 0 <= i < |s| && s[i] == (k, m[k]);
      }
    }
    DistinctKeysCount(s);
  }

  lemma {:induction false} DistinctKeysCount<V>(s: seq<(Key, V)>)
    requires StrictlySortedByKey(s)
    ensures |set i | 0 <= i < |s| :: s[i].0| == |s|
    decreases |s|
  {
    if s != [] {
      var t := s[1..];
      DistinctKeysCount(t);
      var all := set i | 0 <= i < |s| :: s[i].0;
      var tail := set i | 0 <= i < |t| :: t[i].0;
      assert all == tail + {s[0].0} by {
        forall k | k in all ensures k in tail + {s[0].0} {
          var i :| 0 <= i < |s| && s[i].0 == k;
          if i > 0 { assert t[i - 1].0 == k; }
        }
      }
      assert s[0].0 !in tail by {
        forall i | 0 <= i < |t| ensures t[i].0 != s[0].0 {
          assert KeyLess(s[0].0, s[i + 1].0);
          StrLessIrreflexive(s[0].0.s);
        }
      }
    }
  }

  // ---------------------------------------------------------------------------
  // zero_all_if_any_non_finite
  // ---------------------------------------------------------------------------

  /** `functools.reduce(tf.logical_and, bs)` on a non-empty list: a left fold. */
  function ReduceAnd(bs: seq<bool>): (r: bool)
    requires |bs| > 0
    ensures r <==> forall i :: 0 <= i < |bs| ==> bs[i]
  {
    if |bs| == 1 then bs[0] else ReduceAnd(bs[..|bs| - 1]) && bs[|bs| - 1]
  }

  /**
   * `zero_all_if_any_non_finite`. `finite(t)` stands for
   * `tf.reduce_all(tf.is_finite(t))` (every element of the leaf tensor is
   * finite) and `zerosLike` for `tf.zeros_like`. The flag is 1 exactly when
   * some leaf is not finite; then every leaf is zeroed, otherwise (and for
   * an empty structure) the structure is returned as it is with flag 0.
   */
  function ZeroAllIfAnyNonFinite<T>(structure: Nest<T>, finite: T -> bool, zerosLike: T -> T): (r: (Nest<T>, int))
    ensures Flatten(structure) == [] ==> r == (structure, 0)
    ensures r.1 == 0 || r.1 == 1
    ensures r.1 == 1 <==> exists i :: 0 <= i < |Flatten(structure)| && !finite(Flatten(structure)[i])
    ensures r.1 == 0 ==> r.0 == structure
    ensures r.1 == 1 ==> r.0 == MapStructure(zerosLike, structure)
  {
    var flat := Flatten(structure);
    if flat == [] then (structure, 0)
    else
      var flatBools := seq(|flat|, i requires 0 <= i < |flat| => finite(flat[i]));
      var allFinite := ReduceAnd(flatBools);
      assert forall i :: 0 <= i < |flat| ==> flatBools[i] == finite(flat[i]);
      assert allFinite <==> forall i :: 0 <= i < |flat| ==> finite(flat[i]);
      assert !allFinite ==> exists i :: 0 <= i < |Flatten(structure)| && !finite(Flatten(structure)[i]);
      assert allFinite ==> !exists i :: 0 <= i < |Flatten(structure)| && !finite(Flatten(structure)[i]);
      // tf.cond: both branches are built, the predicate picks one.
      var trueBranch := (structure, 0);
      var falseBranch := (MapStructure(zerosLike, structure), 1);
      if allFinite then trueBranch else falseBranch
  }

  /** When the guard zeroes, the result has the input's structure and each of
      its leaves is `zerosLike` of the leaf at the same position. */
  lemma ZeroedKeepsShape<T>(structure: Nest<T>, finite: T -> bool, zerosLike: T -> T)
    ensures var r := ZeroAllIfAnyNonFinite(structure, finite, zerosLike);
      SameStructure(r.0, structure) &&
      |Flatten(r.0)| == |Flatten(structure)| &&
      (r.1 == 1 ==> forall i :: 0 <= i < |Flatten(structure)| ==> Flatten(r.0)[i] == zerosLike(Flatten(structure)[i])) &&
      (r.1 == 0 ==> Flatten(r.0) == Flatten(structure))
  {
    var r := ZeroAllIfAnyNonFinite(structure, finite, zerosLike);
    if r.1 == 1 {
      MapStructureSameStructure(zerosLike, structure);
      FlattenMapStructure(zerosLike, structure);
    } else {
      SameStructureReflexive(structure);
    }
  }

  // ---------------------------------------------------------------------------
  // Dimensions and shapes
  // ---------------------------------------------------------------------------

  /** A dimension size; `None` is an unknown size. */
  type Dim = Option<nat>

  /** A shape: `None` is an unknown rank, otherwise one size per dimension. */
  type Shape = Option<seq<Dim>>

  /** `same_dimension`. */
  predicate SameDimension(x: Dim, y: Dim)
    ensures SameDimension(x, y) <==> x == y
  {
    if x.None? then y.None? else y.Some? && x.value == y.value
  }

  /** Two unknowns are the same, an unknown and a known size never are, two
      known sizes are iff equal; hence the relation is equality of `Dim`s and
      is reflexive, symmetric and transitive. */
  lemma SameDimensionLaws(x: Dim, y: Dim, z: Dim)
    ensures x.None? && y.None? ==> SameDimension(x, y)
    ensures x.None? != y.None? ==> !SameDimension(x, y)
    ensures x.Some? && y.Some? ==> (SameDimension(x, y) <==> x.value == y.value)
    ensures SameDimension(x, y) <==> x == y
    ensures SameDimension(x, x)
    ensures SameDimension(x, y) == SameDimension(y, x)
    ensures SameDimension(x, y) && SameDimension(y, z) ==> SameDimension(x, z)
  {
  }

  /** `TensorShape.ndims`: the rank, `None` when unknown. */
  function Rank(s: Shape): Option<nat>
  {
    match s
    case None => None
    case Some(dims) => Some(|dims|)
  }

  /** `all(same_dimension(a, b) for a, b in zip(xs, ys))`: `zip` stops at the shorter list. */
  function AllSameDimension(xs: seq<Dim>, ys: seq<Dim>): (r: bool)
    ensures r <==> forall i :: 0 <= i < |xs| && i < |ys| ==> SameDimension(xs[i], ys[i])
  {
    if xs == [] || ys == [] then true
    else SameDimension(xs[0], ys[0]) && AllSameDimension(xs[1..], ys[1..])
  }

  /** `same_shape`. */
  predicate SameShape(x: Shape, y: Shape)
    ensures SameShape(x, y) <==> x == y
  {
    if Rank(x) != Rank(y) then false
    else if x.None? then y.None?
    else
      SameDimensionsEqual(x.value, y.value);
      y.Some? && AllSameDimension(x.value, y.value)
  }

  /** For two dimension lists of one length, `AllSameDimension` is equality. */
  lemma SameDimensionsEqual(xs: seq<Dim>, ys: seq<Dim>)
    requires |xs| == |ys|
    ensures AllSameDimension(xs, ys) <==> xs == ys
  {
  }

  /** Different ranks are never the same shape, two unknown ranks are, and two
      known shapes of one rank are iff every dimension pair is the same; the
      relation is equality of `Shape`s, hence reflexive, symmetric and transitive. */
  lemma SameShapeLaws(x: Shape, y: Shape, z: Shape)
    ensures Rank(x) != Rank(y) ==> !SameShape(x, y)
    ensures x.None? && y.None? ==> SameShape(x, y)
    ensures x.Some? && y.Some? && |x.value| == |y.value| ==>
      (SameShape(x, y) <==> forall i :: 0 <= i < |x.value| ==> SameDimension(x.value[i], y.value[i]))
    ensures SameShape(x, y) <==> x == y
    ensures SameShape(x, x)
    ensures SameShape(x, y) == SameShape(y, x)
    ensures SameShape(x, y) && SameShape(y, z) ==> SameShape(x, z)
  {
  }

  // ---------------------------------------------------------------------------
  // is_scalar
  // ---------------------------------------------------------------------------

  /** The argument of `is_scalar`: a tensor with a shape, a tensor-like value
      without `get_shape`, or something that is not a tensor. */
  datatype TensorLike = Tensor(shape: Shape) | TensorWithoutShape | NotATensor

  /** The errors of `is_scalar`: the argument is not a tensor (TypeError), or
      its shape has unknown rank, which `TensorShape` refuses to iterate over (ValueError). */
  datatype ScalarError = NotATensorError | UnknownRankError

  /** `all(dim == 1 for dim in dims)`; an unknown size is not equal to 1. */
  function AllDimsOne(dims: seq<Dim>): (r: bool)
    ensures r <==> forall i :: 0 <= i < |dims| ==> dims[i] == Some(1)
  {
    if dims == [] then true else dims[0] == Some(1) && AllDimsOne(dims[1..])
  }

  /**
   * `is_scalar`: a value that is not a tensor is an error; otherwise the
   * answer is true iff the tensor has a shape and every one of its
   * dimensions is known to be 1 (so true for rank 0).
   */
  function IsScalar(t: TensorLike): (r: Result<bool, ScalarError>)
    ensures r == Failure(NotATensorError) <==> t.NotATensor?
    ensures r == Failure(UnknownRankError) <==> t.Tensor? && t.shape.None?
    ensures r == Success(true) <==>
      t.Tensor? && t.shape.Some? && forall i :: 0 <= i < |t.shape.value| ==> t.shape.value[i] == Some(1)
  {
    match t
    case NotATensor => Failure(NotATensorError)
    case TensorWithoutShape => Success(false)
    case Tensor(None) => Failure(UnknownRankError)
    case Tensor(Some(dims)) => Success(AllDimsOne(dims))
  }
}
