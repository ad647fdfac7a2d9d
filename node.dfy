/**
 * The record half of FreebaseNode: a subject URI and a TreeMap from predicate
 * to the list of values added under it, serialised one tab-separated line per
 * (pred, value) fact. The TreeMap is a Dafny `map` whose keys are visited
 * in `String.compareTo` order, as `SortedKeys` lists them.
 */
module Node {
  import opened JavaString

  // ---------------------------------------------------------------------------
  // Iterating a TreeMap<String, _>: keys in ascending compareTo order

  predicate IsLeast(k: JString, keys: set<JString>)
  {
    k in keys && forall j :: j in keys ==> CompareTo(k, j) <= 0
  }

  /** Every finite non-empty set of strings has a least element. */
  lemma {:induction false} LeastExists(keys: set<JString>)
    requires keys != {}
    ensures exists k :: IsLeast(k, keys)
    decreases |keys|
  {
    CompareToIsTotalOrder();
    var x :| x in keys;
    if keys != {x} {
      var others := keys - {x};
      LeastExists(others);
      var m :| IsLeast(m, others);
      if CompareTo(x, m) <= 0 {
        assert IsLeast(x, keys);
      } else {
        assert IsLeast(m, keys);
      }
    } else {
      assert IsLeast(x, keys);
    }
  }

  function LeastKey(keys: set<JString>): (k: JString)
    requires keys != {}
    ensures IsLeast(k, keys)
  {
    LeastExists(keys);
    CompareToIsTotalOrder();
    var k :| IsLeast(k, keys);
    k
  }

  predicate StrictlyAscending(ks: seq<JString>)
  {
    forall i, j :: 0 <= i < j < |ks| ==> Less(ks[i], ks[j])
  }

  /** The keys of a TreeMap in the order its iteration visits them. */
  function SortedKeys(keys: set<JString>): seq<JString>
    decreases keys
  {
    if keys == {} then []
    else
      var k := LeastKey(keys);
      [k] + SortedKeys(keys - {k})
  }

  /** The listing holds every key once. */
  lemma {:induction false} SortedKeysMembers(keys: set<JString>)
    ensures forall k :: k in SortedKeys(keys) <==> k in keys
    ensures |SortedKeys(keys)| == |keys|
    decreases keys
  {
    if keys != {} {
      SortedKeysMembers(keys - {LeastKey(keys)});
    }
  }

  /** The listing is strictly ascending in compareTo order. */
  lemma {:induction false} SortedKeysAscending(keys: set<JString>)
    ensures StrictlyAscending(SortedKeys(keys))
    decreases keys
  {
    if keys != {} {
      var k := LeastKey(keys);
      var rest := SortedKeys(keys - {k});
      SortedKeysAscending(keys - {k});
      SortedKeysMembers(keys - {k});
      CompareToZero(k, k);
      var ks := [k] + rest;
      forall a, b | 0 <= a < b < |ks| ensures Less(ks[a], ks[b]) {
        assert ks[b] == rest[b - 1];
        if a == 0 {
          assert rest[b - 1] in keys - {k};
          CompareToZero(k, rest[b - 1]);
        } else {
          assert ks[a] == rest[a - 1];
        }
      }
    }
  }

  /** The first key of an ascending listing is its least element. */
  lemma AscendingHead(a: seq<JString>, k: JString)
    requires StrictlyAscending(a) && k in a
    ensures CompareTo(a[0], k) <= 0
    ensures k != a[0] ==> k in a[1..]
  {
    var j :| 0 <= j < |a| && a[j] == k;
    CompareToZero(a[0], a[0]);
    assert j == 0 || Less(a[0], a[j]);
    assert j != 0 ==> a[1..][j - 1] == k;
  }

  /** Two ascending listings of one set start with the same key. */
  lemma AscendingSameHead(a: seq<JString>, b: seq<JString>)
    requires StrictlyAscending(a) && StrictlyAscending(b)
    requires forall x :: x in a <==> x in b
    requires a != []
    ensures b != [] && a[0] == b[0]
  {
    assert a[0] in a;
    assert b[0] in b;
    AscendingHead(a, b[0]);
    AscendingHead(b, a[0]);
    CompareToAntisymmetric(a[0], b[0]);
    CompareToZero(a[0], b[0]);
  }

  /** Dropping the shared least key leaves two listings of one set. */
  lemma AscendingSameTail(a: seq<JString>, b: seq<JString>)
    requires StrictlyAscending(a) && StrictlyAscending(b)
    requires forall x :: x in a <==> x in b
    requires a != [] && b != [] && a[0] == b[0]
    ensures StrictlyAscending(a[1..]) && StrictlyAscending(b[1..])
    ensures forall x :: x in a[1..] <==> x in b[1..]
  {
    CompareToZero(a[0], a[0]);
    forall x | x in a[1..] ensures x in b[1..] {
      var t :| 0 <= t < |a| - 1 && a[1..][t] == x;
      assert Less(a[0], a[t + 1]);
      AscendingHead(b, x);
    }
    forall x | x in b[1..] ensures x in a[1..] {
      var t :| 0 <= t < |b| - 1 && b[1..][t] == x;
      assert Less(b[0], b[t + 1]);
      AscendingHead(a, x);
    }
  }

  /** A set has one strictly ascending listing only. */
  lemma {:induction false} SortedUnique(a: seq<JString>, b: seq<JString>)
    requires StrictlyAscending(a) && StrictlyAscending(b)
    requires forall x :: x in a <==> x in b
    ensures a == b
    decreases |a|
  {
    if a != [] {
      AscendingSameHead(a, b);
      AscendingSameTail(a, b);
      SortedUnique(a[1..], b[1..]);
      assert a == [a[0]] + a[1..] && b == [b[0]] + b[1..];
    } else {
      NothingInEmpty(b, a);
    }
  }

  lemma NothingInEmpty(b: seq<JString>, a: seq<JString>)
    requires forall x :: x in b ==> x in a
    ensures a == [] ==> b == []
  {
    if b != [] {
      assert b[0] in b;
    }
  }

  /** Where a new key goes among sorted keys. */
  lemma {:induction false} InsertionPoint(ks: seq<JString>, p: JString) returns (j: nat)
    requires StrictlyAscending(ks) && p !in ks
    ensures j <= |ks|
    ensures forall i :: 0 <= i < j ==> Less(ks[i], p)
    ensures forall i :: j <= i < |ks| ==> Less(p, ks[i])
    ensures StrictlyAscending(ks[..j] + [p] + ks[j..])
  {
    j := 0;
    while j < |ks| && Less(ks[j], p)
      invariant j <= |ks|
      invariant forall i :: 0 <= i < j ==> Less(ks[i], p)
    {
      j := j + 1;
    }
    if j < |ks| {
      assert ks[j] != p by { assert ks[j] in ks; }
      CompareToZero(ks[j], p);
      CompareToAntisymmetric(ks[j], p);
      forall i | j < i < |ks| ensures Less(p, ks[i]) {
        CompareToTransitive(p, ks[j], ks[i]);
      }
    }
    var r := ks[..j] + [p] + ks[j..];
    forall a, b | 0 <= a < b < |r| ensures Less(r[a], r[b]) {
      if b < j || a > j {
        assert r[a] == ks[if a < j then a else a - 1];
        assert r[b] == ks[if b < j then b else b - 1];
      } else if a == j {
        assert r[b] == ks[b - 1];
      } else if b == j {
        assert r[a] == ks[a];
      } else {
        assert r[a] == ks[a] && r[b] == ks[b - 1] && r[j] == p;
        CompareToTransitive(ks[a], p, ks[b - 1]);
      }
    }
  }

  // ---------------------------------------------------------------------------
  // The facts of a node and their serialisation

  /** One (predicate, value) pair, one line of output. */
  type Fact = (JString, JString)

  /** A map whose every list has at least one value. */
  ghost predicate NoEmptyList(m: map<JString, seq<JString>>)
  {
    forall p :: p in m ==> |m[p]| > 0
  }

  /** `TreeMap.get`, with no list for an absent predicate. */
  function ValuesAt(m: map<JString, seq<JString>>, p: JString): seq<JString>
  {
    if p in m then m[p] else []
  }

  /** The values of one predicate, as facts. */
  function Block(p: JString, vs: seq<JString>): (fs: seq<Fact>)
    ensures |fs| == |vs| && forall i :: 0 <= i < |vs| ==> fs[i] == (p, vs[i])
  {
    seq(|vs|, i requires 0 <= i < |vs| => (p, vs[i]))
  }

  /** The facts of the listed predicates, in the order listed. */
  function FactsOf(ks: seq<JString>, m: map<JString, seq<JString>>): seq<Fact>
  {
    if ks == [] then [] else Block(ks[0], ValuesAt(m, ks[0])) + FactsOf(ks[1..], m)
  }

  /** Every stored fact: predicates in TreeMap order, values in insertion order. */
  function Facts(m: map<JString, seq<JString>>): seq<Fact>
  {
    FactsOf(SortedKeys(m.Keys), m)
  }

  /** One output line: `uri TAB predicate TAB value TAB . NEWLINE`. */
  function Line(uri: JString, f: Fact): JString
  {
    uri + [TAB] + f.0 + [TAB] + f.1 + [TAB] + [DOT, NEWLINE]
  }

  function Lines(uri: JString, fs: seq<Fact>): JString
  {
    if fs == [] then [] else Line(uri, fs[0]) + Lines(uri, fs[1..])
  }

  /** What FreebaseNode.toString returns for a node with this state. */
  function Serialize(uri: JString, m: map<JString, seq<JString>>): JString
  {
    Lines(uri, Facts(m))
  }

  /** The values stored under `p`, in order. */
  function ValuesOf(fs: seq<Fact>, p: JString): seq<JString>
  {
    if fs == [] then [] else (if fs[0].0 == p then [fs[0].1] else []) + ValuesOf(fs[1..], p)
  }

  /** The state after `addPredicateValue(p, o)`. */
  function Appended(m: map<JString, seq<JString>>, p: JString, o: JString): map<JString, seq<JString>>
  {
    m[p := ValuesAt(m, p) + [o]]
  }

  lemma {:induction false} LinesAppend(uri: JString, f: seq<Fact>, g: seq<Fact>)
    ensures Lines(uri, f + g) == Lines(uri, f) + Lines(uri, g)
  {
    if f == [] {
      assert f + g == g;
    } else {
      assert (f + g)[0] == f[0] && (f + g)[1..] == f[1..] + g;
      LinesAppend(uri, f[1..], g);
    }
  }

  lemma LinesSingle(uri: JString, f: Fact)
    ensures Lines(uri, [f]) == Line(uri, f)
  {
    assert Lines(uri, [f]) == Line(uri, f) + Lines(uri, []);
  }

  lemma {:induction false} ValuesOfAppend(f: seq<Fact>, g: seq<Fact>, p: JString)
    ensures ValuesOf(f + g, p) == ValuesOf(f, p) + ValuesOf(g, p)
  {
    if f == [] {
      assert f + g == g;
    } else {
      var head := if f[0].0 == p then [f[0].1] else [];
      assert (f + g)[0] == f[0] && (f + g)[1..] == f[1..] + g;
      assert ValuesOf(f + g, p) == head + ValuesOf(f[1..] + g, p);
      ValuesOfAppend(f[1..], g, p);
      assert ValuesOf(f, p) == head + ValuesOf(f[1..], p);
    }
  }

  lemma {:induction false} ValuesOfBlock(q: JString, vs: seq<JString>, p: JString)
    ensures ValuesOf(Block(q, vs), p) == if q == p then vs else []
  {
    if vs != [] {
      assert Block(q, vs) == [(q, vs[0])] + Block(q, vs[1..]);
      ValuesOfAppend([(q, vs[0])], Block(q, vs[1..]), p);
      ValuesOfBlock(q, vs[1..], p);
      assert vs == [vs[0]] + vs[1..];
    }
  }

  lemma BlockAppend(p: JString, vs: seq<JString>, o: JString)
    ensures Block(p, vs + [o]) == Block(p, vs) + [(p, o)]
  {
  }

  lemma {:induction false} FactsOfAppend(ks1: seq<JString>, ks2: seq<JString>, m: map<JString, seq<JString>>)
    ensures FactsOf(ks1 + ks2, m) == FactsOf(ks1, m) + FactsOf(ks2, m)
  {
    if ks1 == [] {
      assert ks1 + ks2 == ks2;
    } else {
      assert (ks1 + ks2)[0] == ks1[0] && (ks1 + ks2)[1..] == ks1[1..] + ks2;
      FactsOfAppend(ks1[1..], ks2, m);
    }
  }

  lemma FactsOfSingle(p: JString, m: map<JString, seq<JString>>)
    ensures FactsOf([p], m) == Block(p, ValuesAt(m, p))
  {
    assert FactsOf([p], m) == Block(p, ValuesAt(m, p)) + FactsOf([], m);
  }

  lemma {:induction false} FactsOfKeys(ks: seq<JString>, m: map<JString, seq<JString>>)
    ensures forall i :: 0 <= i < |FactsOf(ks, m)| ==> FactsOf(ks, m)[i].0 in ks
  {
    if ks != [] {
      FactsOfKeys(ks[1..], m);
      var b := Block(ks[0], ValuesAt(m, ks[0]));
      forall i | 0 <= i < |FactsOf(ks, m)| ensures FactsOf(ks, m)[i].0 in ks {
        if i >= |b| {
          assert FactsOf(ks, m)[i] == FactsOf(ks[1..], m)[i - |b|];
        }
      }
    }
  }

  lemma {:induction false} FactsOfAgree(ks: seq<JString>, m1: map<JString, seq<JString>>, m2: map<JString, seq<JString>>)
    requires forall k :: k in ks ==> ValuesAt(m1, k) == ValuesAt(m2, k)
    ensures FactsOf(ks, m1) == FactsOf(ks, m2)
  {
    if ks != [] {
      FactsOfAgree(ks[1..], m1, m2);
    }
  }

  /** Each listed predicate's values, in order, and nothing for an unlisted one. */
  lemma {:induction false} FactsOfValues(ks: seq<JString>, m: map<JString, seq<JString>>, p: JString)
    requires StrictlyAscending(ks)
    ensures ValuesOf(FactsOf(ks, m), p) == if p in ks then ValuesAt(m, p) else []
  {
    if ks != [] {
      ValuesOfAppend(Block(ks[0], ValuesAt(m, ks[0])), FactsOf(ks[1..], m), p);
      ValuesOfBlock(ks[0], ValuesAt(m, ks[0]), p);
      assert StrictlyAscending(ks[1..]);
      FactsOfValues(ks[1..], m, p);
      if p == ks[0] {
        CompareToZero(p, p);
        assert p !in ks[1..] by {
          forall t | 1 <= t < |ks| ensures ks[t] != p {
            assert Less(ks[0], ks[t]);
          }
        }
      }
    }
  }

  /** Facts come grouped by predicate, in ascending predicate order. */
  lemma {:induction false} FactsOfSorted(ks: seq<JString>, m: map<JString, seq<JString>>)
    requires StrictlyAscending(ks)
    ensures forall i, j :: 0 <= i < j < |FactsOf(ks, m)| ==> CompareTo(FactsOf(ks, m)[i].0, FactsOf(ks, m)[j].0) <= 0
  {
    if ks != [] {
      var b := Block(ks[0], ValuesAt(m, ks[0]));
      var rest := FactsOf(ks[1..], m);
      var fs := FactsOf(ks, m);
      assert StrictlyAscending(ks[1..]);
      FactsOfSorted(ks[1..], m);
      FactsOfKeys(ks[1..], m);
      CompareToZero(ks[0], ks[0]);
      forall i, j | 0 <= i < j < |fs| ensures CompareTo(fs[i].0, fs[j].0) <= 0 {
        if j < |b| {
          assert fs[i].0 == ks[0] && fs[j].0 == ks[0];
        } else if i < |b| {
          assert fs[i].0 == ks[0];
          assert fs[j] == rest[j - |b|];
          var t :| 0 <= t < |ks[1..]| && ks[1..][t] == fs[j].0;
          assert Less(ks[0], ks[t + 1]);
        } else {
          assert fs[i] == rest[i - |b|] && fs[j] == rest[j - |b|];
        }
      }
    }
  }

  /**
   * The facts describe the map exactly: every fact's predicate is a key,
   * predicates never decrease along the facts, and the values listed for a
   * predicate are its list in insertion order (none for an absent one).
   */
  lemma FactsDescribeMap(m: map<JString, seq<JString>>)
    ensures forall i :: 0 <= i < |Facts(m)| ==> Facts(m)[i].0 in m
    ensures forall i, j :: 0 <= i < j < |Facts(m)| ==> CompareTo(Facts(m)[i].0, Facts(m)[j].0) <= 0
    ensures forall p :: ValuesOf(Facts(m), p) == if p in m then m[p] else []
  {
    var ks := SortedKeys(m.Keys);
    SortedKeysMembers(m.Keys);
    SortedKeysAscending(m.Keys);
    FactsOfKeys(ks, m);
    FactsOfSorted(ks, m);
    forall p ensures ValuesOf(Facts(m), p) == if p in m then m[p] else [] {
      FactsOfValues(ks, m, p);
    }
  }

  /** A node without facts serialises to the empty string. */
  lemma SerializeEmpty(uri: JString)
    ensures Serialize(uri, map[]) == []
  {
    var empty: map<JString, seq<JString>> := map[];
    assert empty.Keys == {};
    assert SortedKeys(empty.Keys) == [];
  }

  /** One more value of the current predicate adds one more line. */
  lemma LinesBlockStep(uri: JString, done: seq<Fact>, p: JString, vs: seq<JString>, j: int)
    requires 0 <= j < |vs|
    ensures Lines(uri, done + Block(p, vs[..j + 1]))
         == Lines(uri, done + Block(p, vs[..j])) + Line(uri, (p, vs[j]))
  {
    assert vs[..j + 1] == vs[..j] + [vs[j]];
    BlockAppend(p, vs[..j], vs[j]);
    assert done + Block(p, vs[..j + 1]) == (done + Block(p, vs[..j])) + [(p, vs[j])];
    LinesAppend(uri, done + Block(p, vs[..j]), [(p, vs[j])]);
    LinesSingle(uri, (p, vs[j]));
  }

  /** One more predicate adds its block of facts. */
  lemma FactsOfPrefixStep(ks: seq<JString>, i: int, m: map<JString, seq<JString>>)
    requires 0 <= i < |ks|
    ensures FactsOf(ks[..i + 1], m) == FactsOf(ks[..i], m) + Block(ks[i], ValuesAt(m, ks[i]))
  {
    assert ks[..i + 1] == ks[..i] + [ks[i]];
    FactsOfAppend(ks[..i], [ks[i]], m);
    FactsOfSingle(ks[i], m);
  }

  // ---------------------------------------------------------------------------
  // Where addPredicateValue puts the new fact

  lemma Regroup<T>(a: seq<T>, b: seq<T>, c: seq<T>, d: seq<T>)
    ensures a + (b + c) + d == a + b + c + d
  {
  }

  /** Facts whose predicates all sort at or before `p`. */
  lemma FactsOfAtOrBelow(ks: seq<JString>, m: map<JString, seq<JString>>, p: JString)
    requires forall k :: k in ks ==> CompareTo(k, p) <= 0
    ensures forall i :: 0 <= i < |FactsOf(ks, m)| ==> CompareTo(FactsOf(ks, m)[i].0, p) <= 0
  {
    FactsOfKeys(ks, m);
  }

  /** Facts whose predicates all sort after `p`. */
  lemma FactsOfAbove(ks: seq<JString>, m: map<JString, seq<JString>>, p: JString)
    requires forall k :: k in ks ==> CompareTo(p, k) < 0
    ensures forall i :: 0 <= i < |FactsOf(ks, m)| ==> CompareTo(p, FactsOf(ks, m)[i].0) < 0
  {
    FactsOfKeys(ks, m);
  }

  lemma FactsOfAround(before: seq<JString>, p: JString, after: seq<JString>, m: map<JString, seq<JString>>)
    ensures FactsOf(before + [p] + after, m)
         == FactsOf(before, m) + Block(p, ValuesAt(m, p)) + FactsOf(after, m)
  {
    FactsOfAppend(before + [p], after, m);
    FactsOfAppend(before, [p], m);
    FactsOfSingle(p, m);
  }

  /** Appending to `p` leaves the facts of other predicates alone. */
  lemma UnaffectedFacts(ks: seq<JString>, m: map<JString, seq<JString>>, p: JString, o: JString)
    requires p !in ks
    ensures FactsOf(ks, Appended(m, p, o)) == FactsOf(ks, m)
  {
    var m' := Appended(m, p, o);
    forall k | k in ks ensures ValuesAt(m, k) == ValuesAt(m', k) {
      assert k in m' <==> k in m;
    }
    FactsOfAgree(ks, m, m');
  }

  /** The facts of `before`, `p` and `after` once `o` is appended to `p`'s list. */
  lemma FactsSplice(before: seq<JString>, p: JString, after: seq<JString>, m: map<JString, seq<JString>>, o: JString)
    requires p !in before && p !in after
    ensures FactsOf(before + [p] + after, Appended(m, p, o))
         == FactsOf(before, m) + Block(p, ValuesAt(m, p)) + [(p, o)] + FactsOf(after, m)
  {
    var m' := Appended(m, p, o);
    var vs := ValuesAt(m, p);
    var lo, b, hi := FactsOf(before, m), Block(p, vs), FactsOf(after, m);
    UnaffectedFacts(before, m, p, o);
    UnaffectedFacts(after, m, p, o);
    assert Block(p, ValuesAt(m', p)) == b + [(p, o)] by {
      assert ValuesAt(m', p) == vs + [o];
      BlockAppend(p, vs, o);
    }
    FactsOfAround(before, p, after, m');
    Regroup(lo, b, [(p, o)], hi);
  }

  /** `f'` is `f` with `(p, o)` inserted at `i`, where `i` parts `f` at `p`. */
  ghost predicate InsertedAt(f: seq<Fact>, f': seq<Fact>, p: JString, o: JString, i: int)
  {
    0 <= i <= |f| &&
    f' == f[..i] + [(p, o)] + f[i..] &&
    (forall k :: 0 <= k < i ==> CompareTo(f[k].0, p) <= 0) &&
    (forall k :: i <= k < |f| ==> CompareTo(p, f[k].0) < 0)
  }

  lemma InsertedBetween(f: seq<Fact>, f': seq<Fact>, lower: seq<Fact>, upper: seq<Fact>, p: JString, o: JString)
    requires f == lower + upper && f' == lower + [(p, o)] + upper
    requires forall k :: 0 <= k < |lower| ==> CompareTo(lower[k].0, p) <= 0
    requires forall k :: 0 <= k < |upper| ==> CompareTo(p, upper[k].0) < 0
    ensures InsertedAt(f, f', p, o, |lower|)
  {
    assert f[..|lower|] == lower && f[|lower|..] == upper;
    forall k | |lower| <= k < |f| ensures CompareTo(p, f[k].0) < 0 {
      assert f[k] == upper[k - |lower|];
    }
  }

  /** The keys before position `j` of an ascending listing sort below it, the later ones above. */
  lemma KeysAround(ks: seq<JString>, j: int)
    requires StrictlyAscending(ks) && 0 <= j < |ks|
    ensures forall k :: k in ks[..j] ==> k != ks[j] && CompareTo(k, ks[j]) <= 0
    ensures forall k :: k in ks[j + 1..] ==> k != ks[j] && CompareTo(ks[j], k) < 0
  {
    CompareToZero(ks[j], ks[j]);
    forall k | k in ks[..j] ensures k != ks[j] && CompareTo(k, ks[j]) <= 0 {
      var t :| 0 <= t < j && ks[..j][t] == k;
      assert ks[t] == k && Less(ks[t], ks[j]);
    }
    forall k | k in ks[j + 1..] ensures k != ks[j] && CompareTo(ks[j], k) < 0 {
      var t :| 0 <= t < |ks| - j - 1 && ks[j + 1..][t] == k;
      assert ks[j + 1 + t] == k && Less(ks[j], ks[j + 1 + t]);
    }
  }

  /** The keys on either side of the gap `p` is inserted into. */
  lemma KeysAroundGap(ks: seq<JString>, j: int, p: JString)
    requires 0 <= j <= |ks|
    requires forall i :: 0 <= i < j ==> Less(ks[i], p)
    requires forall i :: j <= i < |ks| ==> Less(p, ks[i])
    ensures forall k :: k in ks[..j] ==> k != p && CompareTo(k, p) <= 0
    ensures forall k :: k in ks[j..] ==> k != p && CompareTo(p, k) < 0
  {
    CompareToZero(p, p);
    forall k | k in ks[..j] ensures k != p && CompareTo(k, p) <= 0 {
      var t :| 0 <= t < j && ks[..j][t] == k;
      assert ks[t] == k;
    }
    forall k | k in ks[j..] ensures k != p && CompareTo(p, k) < 0 {
      var t :| 0 <= t < |ks| - j && ks[j..][t] == k;
      assert ks[j + t] == k;
    }
  }

  /** An ascending listing of a map's keys is the one its TreeMap visits. */
  lemma ListingOf(m: map<JString, seq<JString>>, ks: seq<JString>)
    requires StrictlyAscending(ks)
    requires forall k :: k in ks <==> k in m
    ensures SortedKeys(m.Keys) == ks
  {
    SortedKeysMembers(m.Keys);
    SortedKeysAscending(m.Keys);
    SortedUnique(ks, SortedKeys(m.Keys));
  }

  /** Appending to `p` in a listing split around `p` inserts one fact at the gap. */
  lemma SpliceListing(ks: seq<JString>, before: seq<JString>, p: JString, after: seq<JString>,
                      m: map<JString, seq<JString>>, o: JString)
    requires ks == before + [p] + after
    requires forall k :: k in before ==> k != p && CompareTo(k, p) <= 0
    requires forall k :: k in after ==> k != p && CompareTo(p, k) < 0
    ensures InsertedAt(FactsOf(ks, m), FactsOf(ks, Appended(m, p, o)),
                       p, o, |FactsOf(before, m)| + |ValuesAt(m, p)|)
  {
    FactsSplice(before, p, after, m, o);
    FactsOfAround(before, p, after, m);
    var lower := FactsOf(before, m) + Block(p, ValuesAt(m, p));
    var upper := FactsOf(after, m);
    FactsOfAppend(before, [p], m);
    FactsOfSingle(p, m);
    CompareToZero(p, p);
    FactsOfAtOrBelow(before + [p], m, p);
    FactsOfAbove(after, m, p);
    InsertedBetween(FactsOf(before + [p] + after, m), FactsOf(before + [p] + after, Appended(m, p, o)),
                    lower, upper, p, o);
  }

  /** Appending to the `j`-th predicate of an ascending listing. */
  lemma SpliceAtKey(ks: seq<JString>, j: int, p: JString, m: map<JString, seq<JString>>, o: JString)
    requires ks == SortedKeys(m.Keys) && 0 <= j < |ks| && ks[j] == p
    ensures InsertedAt(FactsOf(ks, m), FactsOf(ks, Appended(m, p, o)),
                       p, o, |FactsOf(ks[..j], m)| + |ValuesAt(m, p)|)
  {
    var before, after := ks[..j], ks[j + 1..];
    assert before + [p] + after == ks;
    SortedKeysAscending(m.Keys);
    KeysAround(ks, j);
    SpliceListing(ks, before, p, after, m, o);
  }

  lemma SameInsertion(f: seq<Fact>, f': seq<Fact>, g: seq<Fact>, g': seq<Fact>, p: JString, o: JString, i: int)
    requires f == g && f' == g' && InsertedAt(g, g', p, o, i)
    ensures InsertedAt(f, f', p, o, i)
  {
  }

  lemma AppendedFactsExisting(m: map<JString, seq<JString>>, p: JString, o: JString) returns (i: int)
    requires p in m
    ensures InsertedAt(Facts(m), Facts(Appended(m, p, o)), p, o, i)
  {
    var m' := Appended(m, p, o);
    var ks := SortedKeys(m.Keys);
    assert Facts(m') == FactsOf(ks, m') by { assert m'.Keys == m.Keys; }
    assert p in ks by { SortedKeysMembers(m.Keys); }
    var j :| 0 <= j < |ks| && ks[j] == p;
    i := |FactsOf(ks[..j], m)| + |ValuesAt(m, p)|;
    SpliceAtKey(ks, j, p, m, o);
    SameInsertion(Facts(m), Facts(m'), FactsOf(ks, m), FactsOf(ks, m'), p, o, i);
  }

  /** Adding a new predicate `p` in the gap at `j` of an ascending listing. */
  lemma SpliceAtGap(ks: seq<JString>, j: int, p: JString, m: map<JString, seq<JString>>, o: JString)
    requires p !in m && 0 <= j <= |ks|
    requires forall i :: 0 <= i < j ==> Less(ks[i], p)
    requires forall i :: j <= i < |ks| ==> Less(p, ks[i])
    ensures InsertedAt(FactsOf(ks, m), FactsOf(ks[..j] + [p] + ks[j..], Appended(m, p, o)),
                       p, o, |FactsOf(ks[..j], m)|)
  {
    var before, after := ks[..j], ks[j..];
    assert ks == before + after;
    KeysAroundGap(ks, j, p);
    assert FactsOf(ks, m) == FactsOf(before + [p] + after, m) by {
      FactsOfAround(before, p, after, m);
      FactsOfAppend(before, after, m);
      assert Block(p, ValuesAt(m, p)) == [];
      var lo, hi := FactsOf(before, m), FactsOf(after, m);
      assert lo + [] + hi == lo + hi;
    }
    SpliceListing(before + [p] + after, before, p, after, m, o);
  }

  /** Where a new predicate enters the TreeMap's listing of keys. */
  lemma NewKeyListing(m: map<JString, seq<JString>>, p: JString, o: JString) returns (j: int)
    requires p !in m
    ensures 0 <= j <= |SortedKeys(m.Keys)|
    ensures forall i :: 0 <= i < j ==> Less(SortedKeys(m.Keys)[i], p)
    ensures forall i :: j <= i < |SortedKeys(m.Keys)| ==> Less(p, SortedKeys(m.Keys)[i])
    ensures SortedKeys(Appended(m, p, o).Keys)
         == SortedKeys(m.Keys)[..j] + [p] + SortedKeys(m.Keys)[j..]
  {
    var ks := SortedKeys(m.Keys);
    SortedKeysAscending(m.Keys);
    SortedKeysMembers(m.Keys);
    j := InsertionPoint(ks, p);
    var ks' := ks[..j] + [p] + ks[j..];
    assert ks == ks[..j] + ks[j..];
    assert forall k :: k in ks' <==> k in ks || k == p;
    ListingOf(Appended(m, p, o), ks');
  }

  lemma AppendedFactsNew(m: map<JString, seq<JString>>, p: JString, o: JString) returns (i: int)
    requires p !in m
    ensures InsertedAt(Facts(m), Facts(Appended(m, p, o)), p, o, i)
  {
    var ks := SortedKeys(m.Keys);
    var j := NewKeyListing(m, p, o);
    SpliceAtGap(ks, j, p, m, o);
    i := |FactsOf(ks[..j], m)|;
  }

  /**
   * Adding `(p, o)` inserts exactly one fact: after every existing fact whose
   * predicate sorts at or before `p`, before every fact whose predicate sorts
   * after `p`; all the other facts keep their order.
   */
  lemma AppendedFacts(m: map<JString, seq<JString>>, p: JString, o: JString)
    ensures exists i :: InsertedAt(Facts(m), Facts(Appended(m, p, o)), p, o, i)
  {
    var i;
    if p in m {
      i := AppendedFactsExisting(m, p, o);
    } else {
      i := AppendedFactsNew(m, p, o);
    }
  }

  /** Where the new fact lands, without the ordering facts about its neighbours. */
  lemma InsertionIndex(m: map<JString, seq<JString>>, p: JString, o: JString) returns (i: int)
    ensures 0 <= i <= |Facts(m)|
    ensures Facts(Appended(m, p, o)) == Facts(m)[..i] + [(p, o)] + Facts(m)[i..]
  {
    if p in m {
      i := AppendedFactsExisting(m, p, o);
    } else {
      i := AppendedFactsNew(m, p, o);
    }
  }

  lemma LinesInserted(uri: JString, f: seq<Fact>, f': seq<Fact>, p: JString, o: JString, i: int)
    requires 0 <= i <= |f| && f' == f[..i] + [(p, o)] + f[i..]
    ensures Lines(uri, f) == Lines(uri, f[..i]) + Lines(uri, f[i..])
    ensures Lines(uri, f') == Lines(uri, f[..i]) + Line(uri, (p, o)) + Lines(uri, f[i..])
  {
    var lo, hi := f[..i], f[i..];
    assert f == lo + hi;
    LinesAppend(uri, lo, hi);
    LinesAppend(uri, lo + [(p, o)], hi);
    LinesAppend(uri, lo, [(p, o)]);
    LinesSingle(uri, (p, o));
  }

  /**
   * What `toString` shows after `addPredicateValue(p, o)`: the old output
   * with the one line for `(p, o)` inserted between two of its lines.
   */
  lemma SerializeAppended(uri: JString, m: map<JString, seq<JString>>, p: JString, o: JString)
    ensures exists i :: (0 <= i <= |Facts(m)| &&
      Serialize(uri, m) == Lines(uri, Facts(m)[..i]) + Lines(uri, Facts(m)[i..]) &&
      Serialize(uri, Appended(m, p, o))
      == Lines(uri, Facts(m)[..i]) + Line(uri, (p, o)) + Lines(uri, Facts(m)[i..]))
  {
    var i := InsertionIndex(m, p, o);
    LinesInserted(uri, Facts(m), Facts(Appended(m, p, o)), p, o, i);
  }

  // ---------------------------------------------------------------------------
  // The node record

  /** FreebaseNode: a fixed URI and the predicate map it accumulates. */
  class FreebaseNode {
    const uri: JString
    var predicateValues: map<JString, seq<JString>>

    /** A predicate appears only once a value has been added under it. */
    ghost predicate Valid()
      reads this
    {
      NoEmptyList(predicateValues)
    }

    constructor (uri: JString)
      ensures this.uri == uri && predicateValues == map[]
      ensures Valid()
    {
      this.uri := uri;
      predicateValues := map[];
    }

    /**
     * FreebaseNode.addPredicateValue: appends `o` to the list of `p`,
     * creating the list first when `p` is new, and returns the node itself.
     */
    method AddPredicateValue(p: JString, o: JString) returns (self: FreebaseNode)
      requires Valid()
      modifies this
      ensures Valid() && self == this
      ensures predicateValues == Appended(old(predicateValues), p, o)
      ensures p in predicateValues
      ensures predicateValues[p]
           == (if p in old(predicateValues) then old(predicateValues)[p] else []) + [o]
      ensures forall q :: q != p ==> (q in predicateValues <==> q in old(predicateValues))
      ensures forall q :: q != p && q in old(predicateValues) ==> predicateValues[q] == old(predicateValues)[q]
    {
      if p !in predicateValues {
        predicateValues := predicateValues[p := []];
      }
      predicateValues := predicateValues[p := predicateValues[p] + [o]];
      self := this;
    }

    /** FreebaseNode.getPredicateValues, as a read-only view. */
    method GetPredicateValues() returns (m: map<JString, seq<JString>>)
      requires Valid()
      ensures m == predicateValues
      ensures forall q :: q in m ==> |m[q]| > 0
    {
      m := predicateValues;
    }

    /**
     * FreebaseNode.toString: one line per fact, predicates in TreeMap order,
     * each predicate's values in the order they were added.
     */
    method ToString() returns (s: JString)
      ensures s == Serialize(uri, predicateValues)
    {
      s := [];
      var keys := SortedKeys(predicateValues.Keys);
      SortedKeysMembers(predicateValues.Keys);
      var i := 0;
      while i < |keys|
        invariant 0 <= i <= |keys|
        invariant s == Lines(uri, FactsOf(keys[..i], predicateValues))
      {
        var pred := keys[i];
        var values := predicateValues[pred];
        assert values == ValuesAt(predicateValues, pred);
        ghost var done := FactsOf(keys[..i], predicateValues);
        var j := 0;
        assert done + Block(pred, values[..j]) == done;
        while j < |values|
          invariant 0 <= j <= |values|
          invariant s == Lines(uri, done + Block(pred, values[..j]))
        {
          LinesBlockStep(uri, done, pred, values, j);
          s := s + (uri + [TAB] + pred + [TAB] + values[j] + [TAB] + [DOT, NEWLINE]);
          j := j + 1;
        }
        assert values[..j] == values;
        FactsOfPrefixStep(keys, i, predicateValues);
        i := i + 1;
      }
      assert keys[..i] == keys;
    }
  }

  // ---------------------------------------------------------------------------
  // Examples

  /** A node with a single predicate prints that predicate's values in order. */
  lemma SerializeSinglePredicate(uri: JString, p: JString, vs: seq<JString>)
    ensures Serialize(uri, map[p := vs]) == Lines(uri, Block(p, vs))
  {
    var m := map[p := vs];
    assert m.Keys == {p};
    ListingOf(m, [p]);
    FactsOfSingle(p, m);
  }

  /** Two values under one predicate come out in the order they were added. */
  lemma OnePredicateExample()
    ensures Serialize(Units("m.02mjmr"), map[Units("ns:type") := [Units("Person"), Units("Award_Winner")]])
         == Line(Units("m.02mjmr"), (Units("ns:type"), Units("Person")))
          + Line(Units("m.02mjmr"), (Units("ns:type"), Units("Award_Winner")))
  {
    var uri, p := Units("m.02mjmr"), Units("ns:type");
    var v1, v2 := Units("Person"), Units("Award_Winner");
    SerializeSinglePredicate(uri, p, [v1, v2]);
    assert Block(p, [v1, v2]) == [(p, v1)] + [(p, v2)];
    LinesAppend(uri, [(p, v1)], [(p, v2)]);
    LinesSingle(uri, (p, v1));
    LinesSingle(uri, (p, v2));
  }
}
