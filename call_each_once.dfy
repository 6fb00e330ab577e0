/** The documentation's `call_each_once`: callbacks reached through trait-object references
    are de-duplicated by address in a `HashSet<ByAddress<&dyn Fn()>>`. The function as written
    calls a callback when `insert` reports it was already present; `CallEachOnce` is the
    version that calls it when `insert` reports it new. */
module CallEachOnce {
  import opened Hashing
  import opened Wrapper

  /** A hashed set of wrappers, as the keys it holds in insertion order. A lookup goes by the
      wrapper's `Eq`; `HashedLookupComplete` shows that searching only the bucket of the key's
      hash finds the same keys. */
  datatype KeySet<C> = KeySet(keys: seq<ByAddress<C>>)

  predicate Contains<C>(s: KeySet<C>, k: ByAddress<C>) {
    exists i :: 0 <= i < |s.keys| && Eq(s.keys[i], k)
  }

  /** `HashSet::insert`: reports whether no equal key was present, and stores the key only
      then; afterwards the key is present either way. */
  function Insert<C>(s: KeySet<C>, k: ByAddress<C>): (r: (bool, KeySet<C>))
    ensures r.0 <==> !Contains(s, k)
    ensures r.1 == if r.0 then KeySet(s.keys + [k]) else s
    ensures Contains(r.1, k)
  {
    if Contains(s, k) then
      (false, s)
    else
      var s' := KeySet(s.keys + [k]);
      assert Eq(s'.keys[|s.keys|], k);
      (true, s')
  }

  /** The wrappers of a list of callbacks, in order. */
  function Wrap<C>(fs: seq<Pointer<C>>): (r: seq<ByAddress<C>>)
    ensures |r| == |fs| && forall i :: 0 <= i < |fs| ==> r[i] == ByAddress(fs[i])
  {
    seq(|fs|, i requires 0 <= i < |fs| => ByAddress(fs[i]))
  }

  /** A set holding the wrappers of `fs` contains the wrapper of `f` exactly when some
      callback in `fs` lives at the address of `f`. */
  lemma ContainsWrap<C>(fs: seq<Pointer<C>>, f: Pointer<C>)
    ensures Contains(KeySet(Wrap(fs)), ByAddress(f)) <==> Occurs(fs, f)
  {
    var ks := Wrap(fs);
    if Occurs(fs, f) {
      var i :| 0 <= i < |fs| && Eq(ByAddress(fs[i]), ByAddress(f));
      assert Eq(ks[i], ByAddress(f));
    }
  }

  /** Restricting the search to the keys whose hash matches the probe's loses nothing, for
      every hasher: the reason a `HashSet` keyed by `ByAddress` finds every equal key. */
  lemma HashedLookupComplete<C>(s: KeySet<C>, k: ByAddress<C>, finish: Finish)
    ensures Contains(s, k) <==>
      exists i :: 0 <= i < |s.keys| && finish(Hash(s.keys[i], [])) == finish(Hash(k, [])) && Eq(s.keys[i], k)
  {
    if Contains(s, k) {
      var i :| 0 <= i < |s.keys| && Eq(s.keys[i], k);
      HashConsistentWithEq(s.keys[i], k, [], finish);
    }
  }

  /** Some callback in `fs` lives at the address of `f`. */
  predicate Occurs<C>(fs: seq<Pointer<C>>, f: Pointer<C>) {
    exists i :: 0 <= i < |fs| && Eq(ByAddress(fs[i]), ByAddress(f))
  }

  lemma OccursSnoc<C>(fs: seq<Pointer<C>>, g: Pointer<C>, f: Pointer<C>)
    ensures Occurs(fs + [g], f) <==> Occurs(fs, f) || Eq(ByAddress(g), ByAddress(f))
  {
    if Eq(ByAddress(g), ByAddress(f)) {
      assert (fs + [g])[|fs|] == g;
    }
    if Occurs(fs, f) {
      var i :| 0 <= i < |fs| && Eq(ByAddress(fs[i]), ByAddress(f));
      assert (fs + [g])[i] == fs[i];
    }
  }

  /** The callbacks, in order, whose address has already appeared earlier in the list: with
      the first occurrences they account for every callback once. */
  function Repeats<C>(fs: seq<Pointer<C>>): (r: seq<Pointer<C>>)
    ensures |r| + |FirstOccurrences(fs)| == |fs|
    ensures DrawnFrom(r, fs)
  {
    if fs == [] then []
    else
      var init, f := fs[..|fs| - 1], fs[|fs| - 1];
      assert fs == init + [f];
      FirstOccurrencesSnoc(init, f);
      Repeats(init) + (if Occurs(init, f) then [f] else [])
  }

  /** Every callback in `fs` has its address among the calls `r`. */
  ghost predicate Covers<C>(r: seq<Pointer<C>>, fs: seq<Pointer<C>>) {
    forall i {:trigger Occurs(r, fs[i])} :: 0 <= i < |fs| ==> Occurs(r, fs[i])
  }

  /** No two calls in `r` go to the same address. */
  ghost predicate Distinct<C>(r: seq<Pointer<C>>) {
    forall i, j :: 0 <= i < j < |r| ==> !Eq(ByAddress(r[i]), ByAddress(r[j]))
  }

  /** Every call in `r` is to a callback of `fs`. */
  ghost predicate DrawnFrom<C>(r: seq<Pointer<C>>, fs: seq<Pointer<C>>) {
    forall i :: 0 <= i < |r| ==> r[i] in fs
  }

  /** The callbacks, in order, whose address has not appeared earlier in the list: every
      address in `fs` is called, by exactly one call, on a callback taken from `fs`. */
  function FirstOccurrences<C>(fs: seq<Pointer<C>>): (r: seq<Pointer<C>>)
    ensures Covers(r, fs) && Distinct(r) && DrawnFrom(r, fs)
  {
    if fs == [] then []
    else
      var init, f := fs[..|fs| - 1], fs[|fs| - 1];
      assert fs == init + [f];
      var prev := FirstOccurrences(init);
      var r := prev + (if Occurs(init, f) then [] else [f]);
      FirstOccurrencesStep(init, f, prev, r);
      r
  }

  lemma FirstOccurrencesStep<C>(init: seq<Pointer<C>>, f: Pointer<C>, prev: seq<Pointer<C>>, r: seq<Pointer<C>>)
    requires Covers(prev, init) && Distinct(prev) && DrawnFrom(prev, init)
    requires r == prev + (if Occurs(init, f) then [] else [f])
    ensures Covers(r, init + [f]) && Distinct(r) && DrawnFrom(r, init + [f])
  {
    var fs := init + [f];
    forall i | 0 <= i < |fs| ensures Occurs(r, fs[i]) {
      if i < |init| {
        assert fs[i] == init[i] && Occurs(prev, init[i]);
        var k :| 0 <= k < |prev| && Eq(ByAddress(prev[k]), ByAddress(init[i]));
        assert r[k] == prev[k];
      } else if Occurs(init, f) {
        var k :| 0 <= k < |init| && Eq(ByAddress(init[k]), ByAddress(f));
        assert Occurs(prev, init[k]);
        var m :| 0 <= m < |prev| && Eq(ByAddress(prev[m]), ByAddress(init[k]));
        assert r[m] == prev[m];
      } else {
        assert r[|prev|] == f;
      }
    }
    if !Occurs(init, f) {
      forall i | 0 <= i < |prev| ensures !Eq(ByAddress(prev[i]), ByAddress(f)) {
        var k :| 0 <= k < |init| && init[k] == prev[i];
      }
    }
  }

  /** `pos` places each call of `r` in `fs` at increasing positions, so the calls keep the
      order of the list. `repeated` says whether a callback at the same address comes earlier
      in the list than each call's position. */
  ghost predicate PlacedInOrder<C>(r: seq<Pointer<C>>, fs: seq<Pointer<C>>, pos: seq<int>, repeated: bool) {
    && |pos| == |r|
    && (forall i :: 0 <= i < |pos| ==>
          0 <= pos[i] < |fs| && fs[pos[i]] == r[i] && Occurs(fs[..pos[i]], r[i]) == repeated)
    && (forall i, j :: 0 <= i < j < |pos| ==> pos[i] < pos[j])
  }

  /** A placement in `fs` is still one in `fs + [f]`, and `f` itself can be placed after it
      when whether its address occurs earlier is `repeated`. */
  lemma PlacedInOrderSnoc<C>(r: seq<Pointer<C>>, fs: seq<Pointer<C>>, pos: seq<int>, repeated: bool, f: Pointer<C>)
    requires PlacedInOrder(r, fs, pos, repeated)
    ensures PlacedInOrder(r, fs + [f], pos, repeated)
    ensures Occurs(fs, f) == repeated ==> PlacedInOrder(r + [f], fs + [f], pos + [|fs|], repeated)
  {
    var fs' := fs + [f];
    forall i | 0 <= i < |pos| ensures fs'[..pos[i]] == fs[..pos[i]] && fs'[pos[i]] == fs[pos[i]] {
    }
    assert fs'[..|fs|] == fs;
  }

  /** The first occurrences are a subsequence of the callbacks, each taken where its address
      first appears. */
  lemma {:induction false} FirstOccurrencesEarliestInOrder<C>(fs: seq<Pointer<C>>) returns (pos: seq<int>)
    ensures PlacedInOrder(FirstOccurrences(fs), fs, pos, false)
  {
    if fs == [] {
      pos := [];
    } else {
      var init, f := fs[..|fs| - 1], fs[|fs| - 1];
      assert fs == init + [f];
      var prev := FirstOccurrencesEarliestInOrder(init);
      FirstOccurrencesSnoc(init, f);
      PlacedInOrderSnoc(FirstOccurrences(init), init, prev, false, f);
      pos := prev + (if Occurs(init, f) then [] else [|init|]);
    }
  }

  /** The repeats are a subsequence of the callbacks, each one's address having appeared
      earlier in the list. */
  lemma {:induction false} RepeatsLaterInOrder<C>(fs: seq<Pointer<C>>) returns (pos: seq<int>)
    ensures PlacedInOrder(Repeats(fs), fs, pos, true)
  {
    if fs == [] {
      pos := [];
    } else {
      var init, f := fs[..|fs| - 1], fs[|fs| - 1];
      assert fs == init + [f];
      var prev := RepeatsLaterInOrder(init);
      RepeatsSnoc(init, f);
      PlacedInOrderSnoc(Repeats(init), init, prev, true, f);
      pos := prev + (if Occurs(init, f) then [|init|] else []);
    }
  }

  /** Repeats and first occurrences split the callbacks: each callback lands in exactly one
      of the two. */
  lemma {:induction false} RepeatsPartition<C>(fs: seq<Pointer<C>>)
    ensures multiset(Repeats(fs)) + multiset(FirstOccurrences(fs)) == multiset(fs)
  {
    if fs != [] {
      var init, f := fs[..|fs| - 1], fs[|fs| - 1];
      assert fs == init + [f];
      RepeatsPartition(init);
      RepeatsSnoc(init, f);
      FirstOccurrencesSnoc(init, f);
    }
  }

  /** How many callbacks of `fs` live at the address of `f`. */
  function CountAt<C>(fs: seq<Pointer<C>>, f: Pointer<C>): nat {
    if fs == [] then 0
    else CountAt(fs[..|fs| - 1], f) + (if Eq(ByAddress(fs[|fs| - 1]), ByAddress(f)) then 1 else 0)
  }

  lemma CountAtSnoc<C>(fs: seq<Pointer<C>>, g: Pointer<C>, f: Pointer<C>)
    ensures CountAt(fs + [g], f) == CountAt(fs, f) + (if Eq(ByAddress(g), ByAddress(f)) then 1 else 0)
  {
    assert (fs + [g])[..|fs|] == fs;
  }

  /** Where `g` has a same-address callback in `fs`, so does any `f` at the address of `g`. */
  lemma OccursAtSameAddress<C>(fs: seq<Pointer<C>>, g: Pointer<C>, f: Pointer<C>)
    requires Eq(ByAddress(g), ByAddress(f))
    ensures Occurs(fs, g) <==> Occurs(fs, f)
  {
    if Occurs(fs, g) {
      var k :| 0 <= k < |fs| && Eq(ByAddress(fs[k]), ByAddress(g));
      assert Eq(ByAddress(fs[k]), ByAddress(f));
    }
    if Occurs(fs, f) {
      var k :| 0 <= k < |fs| && Eq(ByAddress(fs[k]), ByAddress(f));
      assert Eq(ByAddress(fs[k]), ByAddress(g));
    }
  }

  /** As written, every address is called one time fewer than it is passed. */
  lemma {:induction false} CountAtRepeats<C>(fs: seq<Pointer<C>>, f: Pointer<C>)
    ensures CountAt(Repeats(fs), f) + (if Occurs(fs, f) then 1 else 0) == CountAt(fs, f)
  {
    if fs != [] {
      var init, g := fs[..|fs| - 1], fs[|fs| - 1];
      assert fs == init + [g];
      CountAtRepeats(init, f);
      RepeatsSnoc(init, g);
      OccursSnoc(init, g, f);
      CountAtSnoc(init, g, f);
      var same := Eq(ByAddress(g), ByAddress(f));
      if Occurs(init, g) {
        CountAtSnoc(Repeats(init), g, f);
        if same {
          OccursAtSameAddress(init, g, f);
        }
      } else {
        assert Repeats(fs) == Repeats(init);
        if same {
          OccursAtSameAddress(init, g, f);
        }
      }
    }
  }

  /** Corrected, every address that is passed is called exactly once, and no other. */
  lemma {:induction false} CountAtFirstOccurrences<C>(fs: seq<Pointer<C>>, f: Pointer<C>)
    ensures CountAt(FirstOccurrences(fs), f) == (if Occurs(fs, f) then 1 else 0)
  {
    if fs != [] {
      var init, g := fs[..|fs| - 1], fs[|fs| - 1];
      assert fs == init + [g];
      CountAtFirstOccurrences(init, f);
      FirstOccurrencesSnoc(init, g);
      OccursSnoc(init, g, f);
      var same := Eq(ByAddress(g), ByAddress(f));
      if Occurs(init, g) {
        assert FirstOccurrences(fs) == FirstOccurrences(init);
        if same {
          OccursAtSameAddress(init, g, f);
        }
      } else {
        CountAtSnoc(FirstOccurrences(init), g, f);
        if same {
          OccursAtSameAddress(init, g, f);
        }
      }
    }
  }

  /** What the calls so far cover is what the callbacks so far cover. */
  lemma OccursInFirstOccurrences<C>(fs: seq<Pointer<C>>, f: Pointer<C>)
    ensures Occurs(FirstOccurrences(fs), f) <==> Occurs(fs, f)
  {
    var r := FirstOccurrences(fs);
    if Occurs(fs, f) {
      var i :| 0 <= i < |fs| && Eq(ByAddress(fs[i]), ByAddress(f));
      assert Occurs(r, fs[i]);
    }
    if Occurs(r, f) {
      var j :| 0 <= j < |r| && Eq(ByAddress(r[j]), ByAddress(f));
      var i :| 0 <= i < |fs| && fs[i] == r[j];
    }
  }

  lemma RepeatsSnoc<C>(fs: seq<Pointer<C>>, f: Pointer<C>)
    ensures Repeats(fs + [f]) == Repeats(fs) + (if Occurs(fs, f) then [f] else [])
  {
    assert (fs + [f])[..|fs|] == fs;
  }

  lemma FirstOccurrencesSnoc<C>(fs: seq<Pointer<C>>, f: Pointer<C>)
    ensures FirstOccurrences(fs + [f]) == FirstOccurrences(fs) + (if Occurs(fs, f) then [] else [f])
    ensures Wrap(FirstOccurrences(fs + [f])) == Wrap(FirstOccurrences(fs)) + (if Occurs(fs, f) then [] else [ByAddress(f)])
  {
    assert (fs + [f])[..|fs|] == fs;
    var prev := FirstOccurrences(fs);
    if !Occurs(fs, f) {
      WrapSnoc(prev, f);
    }
  }

  lemma WrapSnoc<C>(fs: seq<Pointer<C>>, f: Pointer<C>)
    ensures Wrap(fs + [f]) == Wrap(fs) + [ByAddress(f)]
  {
  }

  /** The set holding the first occurrences of `fs` takes in `f` exactly when no callback of
      `fs` shares its address, and then holds the first occurrences of `fs + [f]`. */
  lemma InsertFirstOccurrence<C>(fs: seq<Pointer<C>>, f: Pointer<C>)
    ensures Insert(KeySet(Wrap(FirstOccurrences(fs))), ByAddress(f))
         == (!Occurs(fs, f), KeySet(Wrap(FirstOccurrences(fs + [f]))))
  {
    var prev := FirstOccurrences(fs);
    var seen := KeySet(Wrap(prev));
    ContainsWrap(prev, f);
    OccursInFirstOccurrences(fs, f);
    FirstOccurrencesSnoc(fs, f);
    var r := Insert(seen, ByAddress(f));
    assert r.0 == !Occurs(fs, f);
    assert r.1 == KeySet(Wrap(FirstOccurrences(fs + [f])));
  }

  /** `call_each_once` as written: `f()` runs when `seen.insert` returns `false`. The result is
      the sequence of calls made. */
  method CallEachOnceAsWritten<C>(callbacks: seq<Pointer<C>>) returns (calls: seq<Pointer<C>>)
    ensures calls == Repeats(callbacks)
  {
    var seen: KeySet<C> := KeySet([]);
    calls := [];
    var i := 0;
    while i < |callbacks|
      invariant 0 <= i <= |callbacks|
      invariant seen == KeySet(Wrap(FirstOccurrences(callbacks[..i])))
      invariant calls == Repeats(callbacks[..i])
    {
      var f := callbacks[i];
      assert callbacks[..i + 1] == callbacks[..i] + [f];
      InsertFirstOccurrence(callbacks[..i], f);
      RepeatsSnoc(callbacks[..i], f);
      var inserted := Insert(seen, ByAddress(f));
      if !inserted.0 {
        calls := calls + [f];
      }
      seen := inserted.1;
      i := i + 1;
    }
    assert callbacks[..i] == callbacks;
  }

  /** `call_each_once` with the test the other way round: `f()` runs when `seen.insert`
      returns `true`, so each distinct callback runs once. */
  method CallEachOnce<C>(callbacks: seq<Pointer<C>>) returns (calls: seq<Pointer<C>>)
    ensures calls == FirstOccurrences(callbacks)
    ensures Covers(calls, callbacks) && Distinct(calls) && DrawnFrom(calls, callbacks)
  {
    var seen: KeySet<C> := KeySet([]);
    calls := [];
    var i := 0;
    while i < |callbacks|
      invariant 0 <= i <= |callbacks|
      invariant calls == FirstOccurrences(callbacks[..i])
      invariant seen == KeySet(Wrap(calls))
    {
      var f := callbacks[i];
      assert callbacks[..i + 1] == callbacks[..i] + [f];
      InsertFirstOccurrence(callbacks[..i], f);
      FirstOccurrencesSnoc(callbacks[..i], f);
      var inserted := Insert(seen, ByAddress(f));
      if inserted.0 {
        calls := calls + [f];
      }
      seen := inserted.1;
      i := i + 1;
    }
    assert callbacks[..i] == callbacks;
  }

  /** The written version breaks both halves of its name: a lone callback is never called, and
      one passed three times is called twice. */
  lemma AsWrittenMissesAndRepeats<C>(f: Pointer<C>)
    ensures Repeats([f]) == [] && !Covers(Repeats([f]), [f])
    ensures Repeats([f, f, f]) == [f, f] && !Distinct(Repeats([f, f, f]))
  {
    assert [f][..0] == [];
    assert [f, f][..1] == [f];
    assert [f, f, f][..2] == [f, f];
    assert Eq(ByAddress([f][0]), ByAddress(f));
    assert Occurs([f], f);
    assert Eq(ByAddress([f, f][0]), ByAddress(f));
    assert Occurs([f, f], f);
    assert !Occurs([], [f][0]);
  }
}
