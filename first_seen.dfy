/**
 * First-seen deduplication: walk a sequence in order and keep an element only
 * when no element with the same key was kept before. This is what a JavaScript
 * loop over an array does when it consults a `Set` of keys already seen before
 * pushing onto an output array, and it is also the key order of a group-by.
 */
module FirstSeen {

  /** Some element of `xs` has key `k`. */
  predicate Declares<T>(xs: seq<T>, key: T -> string, k: string)
  {
    exists i :: 0 <= i < |xs| && key(xs[i]) == k
  }

  /** The index of the first element of `xs` with key `k`. */
  function FirstIndex<T>(xs: seq<T>, key: T -> string, k: string): (i: nat)
    requires Declares(xs, key, k)
    ensures i < |xs| && key(xs[i]) == k
    ensures forall j :: 0 <= j < i ==> key(xs[j]) != k
  {
    if key(xs[0]) == k then 0
    else
      assert Declares(xs[1..], key, k) by {
        var i :| 0 <= i < |xs| && key(xs[i]) == k;
        assert xs[1..][i - 1] == xs[i];
      }
      1 + FirstIndex(xs[1..], key, k)
  }

  /**
   * The elements of `xs` kept by the walk, when the keys in `seen` have
   * already been met: an element is kept when its key is neither in `seen`
   * nor the key of an element kept earlier.
   */
  function DedupFrom<T>(xs: seq<T>, key: T -> string, seen: set<string>): seq<T>
  {
    if xs == [] then []
    else if key(xs[0]) in seen then DedupFrom(xs[1..], key, seen)
    else [xs[0]] + DedupFrom(xs[1..], key, seen + {key(xs[0])})
  }

  /** The walk from nothing seen. */
  function Dedup<T>(xs: seq<T>, key: T -> string): seq<T>
  {
    DedupFrom(xs, key, {})
  }

  /** The keys of the elements of `xs`. */
  function KeysOf<T>(xs: seq<T>, key: T -> string): set<string>
  {
    if xs == [] then {} else {key(xs[0])} + KeysOf(xs[1..], key)
  }

  /** Walking `xs` then `rest` is walking `xs`, then walking `rest` with the keys of `xs` seen. */
  lemma {:induction false} DedupFromAppend<T>(xs: seq<T>, rest: seq<T>, key: T -> string, seen: set<string>)
    ensures DedupFrom(xs + rest, key, seen) == DedupFrom(xs, key, seen) + DedupFrom(rest, key, seen + KeysOf(xs, key))
  {
    if xs == [] {
      assert xs + rest == rest;
      assert seen + KeysOf(xs, key) == seen;
      assert DedupFrom(xs, key, seen) == [];
    } else {
      var k := key(xs[0]);
      assert (xs + rest)[0] == xs[0] && (xs + rest)[1..] == xs[1..] + rest;
      var seen' := seen + {k};
      DedupFromAppend(xs[1..], rest, key, seen');
      assert seen' + KeysOf(xs[1..], key) == seen + KeysOf(xs, key);
      if k in seen {
        assert seen' == seen;
      }
    }
  }

  /** A walk over `xs + rest` that has produced `out` so far goes on as a walk over `xs`, then over `rest`. */
  lemma WalkOn<T>(out: seq<T>, seen: set<string>, xs: seq<T>, rest: seq<T>, key: T -> string, target: seq<T>)
    requires out + DedupFrom(xs + rest, key, seen) == target
    ensures (out + DedupFrom(xs, key, seen)) + DedupFrom(rest, key, seen + KeysOf(xs, key)) == target
  {
    DedupFromAppend(xs, rest, key, seen);
  }

  /**
   * The walk as a loop: append to `out0` each element of `xs` whose key is
   * neither in `seen0` nor the key of an element appended before, and add
   * the keys met to the set.
   */
  method KeepFirstSeen<T>(out0: seq<T>, seen0: set<string>, xs: seq<T>, key: T -> string)
    returns (out: seq<T>, seen: set<string>)
    ensures out == out0 + DedupFrom(xs, key, seen0)
    ensures seen == seen0 + KeysOf(xs, key)
  {
    out, seen := out0, seen0;
    assert xs[0..] == xs;
    for j := 0 to |xs|
      invariant out + DedupFrom(xs[j..], key, seen) == out0 + DedupFrom(xs, key, seen0)
      invariant seen + KeysOf(xs[j..], key) == seen0 + KeysOf(xs, key)
    {
      var x := xs[j];
      assert xs[j..][0] == x && xs[j..][1..] == xs[j + 1..];
      if key(x) in seen {
        continue;
      }
      seen := seen + {key(x)};
      out := out + [x];
    }
    assert xs[|xs|..] == [];
  }

  /** No kept element has a key already seen, and no two kept elements share a key. */
  lemma {:induction false} DedupUnique<T>(xs: seq<T>, key: T -> string, seen: set<string>)
    ensures forall i :: 0 <= i < |DedupFrom(xs, key, seen)| ==>
      key(DedupFrom(xs, key, seen)[i]) !in seen
    ensures UniqueKeys(DedupFrom(xs, key, seen), key)
  {
    if xs != [] {
      var d := DedupFrom(xs, key, seen);
      var k := key(xs[0]);
      if k in seen {
        assert d == DedupFrom(xs[1..], key, seen);
        DedupUnique(xs[1..], key, seen);
      } else {
        var rest := DedupFrom(xs[1..], key, seen + {k});
        assert d == [xs[0]] + rest;
        DedupUnique(xs[1..], key, seen + {k});
        forall i | 0 <= i < |d| ensures key(d[i]) !in seen {
          if i > 0 { assert d[i] == rest[i - 1]; }
        }
        forall i, j | 0 <= i < j < |d| ensures key(d[i]) != key(d[j]) {
          assert d[j] == rest[j - 1];
          if i > 0 { assert d[i] == rest[i - 1]; }
        }
      }
    }
  }

  /** Every key of `xs` that was not already seen is the key of some kept element. */
  lemma {:induction false} DedupCovers<T>(xs: seq<T>, key: T -> string, seen: set<string>)
    ensures forall i :: 0 <= i < |xs| && key(xs[i]) !in seen ==>
      Declares(DedupFrom(xs, key, seen), key, key(xs[i]))
  {
    if xs != [] {
      var d := DedupFrom(xs, key, seen);
      var k := key(xs[0]);
      if k in seen {
        assert d == DedupFrom(xs[1..], key, seen);
        DedupCovers(xs[1..], key, seen);
        forall i | 0 <= i < |xs| && key(xs[i]) !in seen
          ensures Declares(d, key, key(xs[i]))
        {
          assert i > 0;
          assert xs[1..][i - 1] == xs[i];
        }
      } else {
        DedupCovers(xs[1..], key, seen + {k});
        var rest := DedupFrom(xs[1..], key, seen + {k});
        assert d == [xs[0]] + rest;
        forall i | 0 <= i < |xs| && key(xs[i]) !in seen
          ensures Declares(d, key, key(xs[i]))
        {
          if key(xs[i]) == k {
            assert d[0] == xs[0];
          } else {
            assert xs[1..][i - 1] == xs[i];
            var j :| 0 <= j < |rest| && key(rest[j]) == key(xs[i]);
            assert d[j + 1] == rest[j];
          }
        }
      }
    }
  }

  /** Each kept element is the first element of `xs` with its key. */
  lemma {:induction false} DedupKeepsFirst<T>(xs: seq<T>, key: T -> string, seen: set<string>)
    ensures KeptAtFirstOccurrence(xs, key, DedupFrom(xs, key, seen))
  {
    if xs != [] {
      var d := DedupFrom(xs, key, seen);
      var k := key(xs[0]);
      var seen' := if k in seen then seen else seen + {k};
      var rest := DedupFrom(xs[1..], key, seen');
      assert d == if k in seen then rest else [xs[0]] + rest;
      DedupKeepsFirst(xs[1..], key, seen');
      DedupUnique(xs[1..], key, seen');
      forall j | 0 <= j < |d|
        ensures Declares(xs, key, key(d[j])) && d[j] == xs[FirstIndex(xs, key, key(d[j]))]
      {
        if k !in seen && j == 0 {
          assert d[0] == xs[0];
        } else {
          var j' := if k in seen then j else j - 1;
          assert d[j] == rest[j'];
          var i := FirstIndex(xs[1..], key, key(rest[j']));
          assert xs[i + 1] == xs[1..][i];
          assert key(rest[j']) != k;
          assert FirstIndex(xs, key, key(d[j])) == 1 + i;
        }
      }
    }
  }

  /** No two elements of `d` share a key. */
  predicate UniqueKeys<T>(d: seq<T>, key: T -> string)
  {
    forall i, j :: 0 <= i < j < |d| ==> key(d[i]) != key(d[j])
  }

  /** Every element of `d` is the first element of `xs` with its key. */
  ghost predicate KeptAtFirstOccurrence<T>(xs: seq<T>, key: T -> string, d: seq<T>)
  {
    forall j :: 0 <= j < |d| ==>
      Declares(xs, key, key(d[j])) && d[j] == xs[FirstIndex(xs, key, key(d[j]))]
  }

  /** Elements of `d` appear in the order in which their keys are first met in `xs`. */
  predicate InFirstSeenOrder<T>(xs: seq<T>, key: T -> string, d: seq<T>)
  {
    forall j1, j2 :: 0 <= j1 < j2 < |d| ==> MetBefore(xs, key, d[j1], d[j2])
  }

  /** The key of `a` is first met in `xs` before the key of `b`. */
  predicate MetBefore<T>(xs: seq<T>, key: T -> string, a: T, b: T)
  {
    Declares(xs, key, key(a)) && Declares(xs, key, key(b)) &&
    FirstIndex(xs, key, key(a)) < FirstIndex(xs, key, key(b))
  }

  /** Every kept key is a key of `xs`. */
  lemma {:induction false} DedupDeclared<T>(xs: seq<T>, key: T -> string, seen: set<string>)
    ensures forall j :: 0 <= j < |DedupFrom(xs, key, seen)| ==>
      Declares(xs, key, key(DedupFrom(xs, key, seen)[j]))
  {
    if xs != [] {
      var d := DedupFrom(xs, key, seen);
      var k := key(xs[0]);
      var seen' := if k in seen then seen else seen + {k};
      var rest := DedupFrom(xs[1..], key, seen');
      assert d == if k in seen then rest else [xs[0]] + rest;
      DedupDeclared(xs[1..], key, seen');
      forall j | 0 <= j < |d| ensures Declares(xs, key, key(d[j])) {
        if k !in seen && j == 0 {
          assert key(xs[0]) == key(d[j]);
        } else {
          var j' := if k in seen then j else j - 1;
          assert d[j] == rest[j'];
          var i :| 0 <= i < |xs[1..]| && key(xs[1..][i]) == key(rest[j']);
          assert xs[i + 1] == xs[1..][i];
        }
      }
    }
  }

  /** Past a first element with another key, first indices shift by one. */
  lemma FirstIndexTail<T>(xs: seq<T>, key: T -> string, k: string)
    requires xs != [] && key(xs[0]) != k && Declares(xs[1..], key, k)
    ensures Declares(xs, key, k) && FirstIndex(xs, key, k) == 1 + FirstIndex(xs[1..], key, k)
  {
    var i := FirstIndex(xs[1..], key, k);
    assert xs[i + 1] == xs[1..][i];
  }

  /** Kept elements appear in the order in which their keys are first met in `xs`. */
  lemma {:induction false} DedupOrder<T>(xs: seq<T>, key: T -> string, seen: set<string>)
    ensures InFirstSeenOrder(xs, key, DedupFrom(xs, key, seen))
  {
    if xs != [] {
      var d := DedupFrom(xs, key, seen);
      var k := key(xs[0]);
      var seen' := if k in seen then seen else seen + {k};
      var rest := DedupFrom(xs[1..], key, seen');
      assert d == if k in seen then rest else [xs[0]] + rest;
      DedupOrder(xs[1..], key, seen');
      DedupUnique(xs[1..], key, seen');
      DedupDeclared(xs[1..], key, seen');
      forall j1, j2 | 0 <= j1 < j2 < |d|
        ensures MetBefore(xs, key, d[j1], d[j2])
      {
        var j2' := if k in seen then j2 else j2 - 1;
        assert d[j2] == rest[j2'];
        assert key(rest[j2']) !in seen';
        assert Declares(xs[1..], key, key(rest[j2']));
        FirstIndexTail(xs, key, key(rest[j2']));
        if k !in seen && j1 == 0 {
          assert d[j1] == xs[0];
        } else {
          var j1' := if k in seen then j1 else j1 - 1;
          assert d[j1] == rest[j1'];
          assert key(rest[j1']) !in seen';
          assert Declares(xs[1..], key, key(rest[j1']));
          FirstIndexTail(xs, key, key(rest[j1']));
          assert MetBefore(xs[1..], key, rest[j1'], rest[j2']);
        }
      }
      assert InFirstSeenOrder(xs, key, d);
    }
  }

  /** The walk keeps nothing exactly when every key of `xs` was already seen. */
  lemma {:induction false} DedupEmpty<T>(xs: seq<T>, key: T -> string, seen: set<string>)
    ensures DedupFrom(xs, key, seen) == [] <==> forall i :: 0 <= i < |xs| ==> key(xs[i]) in seen
  {
    DedupCovers(xs, key, seen);
    DedupKeepsFirst(xs, key, seen);
    var d := DedupFrom(xs, key, seen);
    if d != [] {
      DedupUnique(xs, key, seen);
      assert key(xs[FirstIndex(xs, key, key(d[0]))]) !in seen;
    }
  }

  /**
   * The walk from nothing seen keeps one element per key of `xs`, exactly the
   * keys of `xs`, each the first element with its key, in first-seen order.
   */
  lemma DedupIsFirstSeen<T>(xs: seq<T>, key: T -> string)
    ensures UniqueKeys(Dedup(xs, key), key)
    ensures forall k :: Declares(Dedup(xs, key), key, k) <==> Declares(xs, key, k)
    ensures KeptAtFirstOccurrence(xs, key, Dedup(xs, key))
    ensures InFirstSeenOrder(xs, key, Dedup(xs, key))
  {
    var d := Dedup(xs, key);
    DedupUnique(xs, key, {});
    DedupCovers(xs, key, {});
    DedupDeclared(xs, key, {});
    DedupKeepsFirst(xs, key, {});
    DedupOrder(xs, key, {});
    forall k ensures Declares(d, key, k) <==> Declares(xs, key, k) {
      if Declares(d, key, k) {
        var j :| 0 <= j < |d| && key(d[j]) == k;
        assert Declares(xs, key, key(d[j]));
      }
      if Declares(xs, key, k) {
        var i :| 0 <= i < |xs| && key(xs[i]) == k;
        assert Declares(d, key, key(xs[i]));
      }
    }
  }
}
