/** `ByAddress<T>`: a wrapper around a pointer-like `T` whose equality, ordering and hash
    are those of the address `T` points to, never those of the value stored there. */
module Wrapper {
  import opened Ordered
  import opened Pointers
  import opened Hashing

  /** A pointer-like value `T: Deref` (a reference, `Rc`, `Box`, `Vec`, `String`, ...):
      `target` is the raw pointer `&*p` coerces to, and `pointee` the value stored there. */
  datatype Pointer<V> = Pointer(target: Ptr, pointee: V)

  /** `pub struct ByAddress<T>(pub T)`: no state besides the wrapped pointer. */
  datatype ByAddress<V> = ByAddress(inner: Pointer<V>)

  /** `addr`: the raw pointer to the target of what `deref` returns, whatever value is
      stored there. */
  function Addr<V>(b: ByAddress<V>): (r: Ptr)
    ensures r == Deref(b).target
  {
    b.inner.target
  }

  /** `Deref::deref`: the wrapped pointer itself (not its target). */
  function Deref<V>(b: ByAddress<V>): (r: Pointer<V>)
    ensures ByAddress(r) == b
  {
    b.inner
  }

  /** The wrapper after `write` has been applied through the borrow `deref_mut` hands out. */
  function DerefMut<V>(b: ByAddress<V>, write: Pointer<V> -> Pointer<V>): (r: ByAddress<V>)
    ensures Deref(r) == write(Deref(b))
  {
    ByAddress(write(b.inner))
  }

  /** `Hash::hash`: hashes `addr() as *const ()`, so only the data address reaches the hasher. */
  function Hash<V>(b: ByAddress<V>, state: Transcript): (r: Transcript)
    ensures r == state + [Addr(b).data]
  {
    HashPtr(CastThin(Addr(b)), state)
  }

  /** `PartialEq::eq`: the two raw pointers are identical, metadata included; equivalently,
      their fingerprints coincide. */
  function Eq<V>(a: ByAddress<V>, b: ByAddress<V>): (r: bool)
    ensures r <==> Fingerprint(Addr(a)) == Fingerprint(Addr(b))
  {
    LexOrderIsFingerprintOrder(Addr(a), Addr(b));
    Addr(a) == Addr(b)
  }

  /** `Ord::cmp`: raw pointer comparison of the two addresses. */
  function Cmp<V>(a: ByAddress<V>, b: ByAddress<V>): (r: Ordering)
    ensures r == Equal <==> Eq(a, b)
    ensures r == Compare(Fingerprint(Addr(a)), Fingerprint(Addr(b)))
  {
    PtrCmp(Addr(a), Addr(b))
  }

  /** `PartialOrd::partial_cmp`: always an answer, and always the one `cmp` gives. */
  function PartialCmp<V>(a: ByAddress<V>, b: ByAddress<V>): (r: Option<Ordering>)
    ensures r == Some(Cmp(a, b))
  {
    Some(PtrCmp(Addr(a), Addr(b)))
  }

  /** `a <= b` as `Ord` defines it. */
  predicate Le<V>(a: ByAddress<V>, b: ByAddress<V>) {
    Cmp(a, b) != Greater
  }

  // Equality

  /** `Eq` promises an equivalence relation. */
  lemma EqIsEquivalence<V>(a: ByAddress<V>, b: ByAddress<V>, c: ByAddress<V>)
    ensures Eq(a, a)
    ensures Eq(a, b) <==> Eq(b, a)
    ensures Eq(a, b) && Eq(b, c) ==> Eq(a, c)
  {
  }

  /** Equal exactly when both the data address and the metadata agree: two slices starting
      at one address but of different lengths are unequal. */
  lemma EqIffSameFatPointer<V>(a: ByAddress<V>, b: ByAddress<V>)
    ensures Eq(a, b) <==> Addr(a).data == Addr(b).data && Addr(a).meta == Addr(b).meta
  {
  }

  /** Identity ignores the pointees: pointers to one place are equal whatever is stored
      there, and pointers to two places are unequal even when they hold equal values. */
  lemma EqIgnoresPointee<V>(p: Pointer<V>, q: Pointer<V>)
    ensures Eq(ByAddress(p), ByAddress(q)) <==> p.target == q.target
    ensures Eq(ByAddress(p), ByAddress(Pointer(p.target, q.pointee)))
    ensures p.target.data != q.target.data && p.pointee == q.pointee ==> !Eq(ByAddress(p), ByAddress(q))
  {
  }

  // Hashing

  /** Equal wrappers feed the hasher the same words, so any hasher gives them equal hashes. */
  lemma HashConsistentWithEq<V>(a: ByAddress<V>, b: ByAddress<V>, state: Transcript, finish: Finish)
    requires Eq(a, b)
    ensures Hash(a, state) == Hash(b, state)
    ensures finish(Hash(a, state)) == finish(Hash(b, state))
  {
  }

  /** The hasher sees the data address and nothing else: two wrappers feed it the same words
      exactly when their data addresses agree, metadata notwithstanding. */
  lemma HashSeesOnlyDataAddress<V>(a: ByAddress<V>, b: ByAddress<V>, state: Transcript)
    ensures Hash(a, state) == Hash(b, state) <==> Addr(a).data == Addr(b).data
  {
    if Hash(a, state) == Hash(b, state) {
      assert Hash(a, state)[|state|] == Addr(a).data;
    }
  }

  /** Hashing drops the metadata that equality compares: one address with two lengths gives
      unequal wrappers with equal hashes. */
  lemma HashCollidesOnMetadata<V>(a: ByAddress<V>, b: ByAddress<V>, state: Transcript)
    requires Addr(a).data == Addr(b).data && Addr(a).meta != Addr(b).meta
    ensures !Eq(a, b) && Hash(a, state) == Hash(b, state)
  {
  }

  // Ordering

  /** `cmp(a, b)` is `cmp(b, a)` reversed. */
  lemma CmpAntisymmetric<V>(a: ByAddress<V>, b: ByAddress<V>)
    ensures Cmp(a, b) == Cmp(b, a).Reverse()
  {
  }

  /** `<`, `==` and `>` as `cmp` answers them are each transitive, and so is `<=`. */
  lemma CmpTransitive<V>(a: ByAddress<V>, b: ByAddress<V>, c: ByAddress<V>, o: Ordering)
    ensures Cmp(a, b) == o && Cmp(b, c) == o ==> Cmp(a, c) == o
    ensures Le(a, b) && Le(b, c) ==> Le(a, c)
  {
  }

  /** `<=` is a total preorder whose two-way pairs are exactly the `Eq` pairs. */
  lemma LeIsTotalOrder<V>(a: ByAddress<V>, b: ByAddress<V>)
    ensures Le(a, a)
    ensures Le(a, b) || Le(b, a)
    ensures Le(a, b) && Le(b, a) <==> Eq(a, b)
  {
  }

  /** The data address decides the order; the metadata is consulted only on a tie. */
  lemma CmpAddressFirst<V>(a: ByAddress<V>, b: ByAddress<V>)
    ensures Addr(a).data < Addr(b).data ==> Cmp(a, b) == Less
    ensures Addr(a).data == Addr(b).data ==>
      Cmp(a, b) == (if MetaLt(Addr(a).meta, Addr(b).meta) then Less
                    else if Addr(a).meta == Addr(b).meta then Equal else Greater)
  {
  }

  // Transparency

  /** Writing through `deref_mut` gives the wrapper the identity of what was written, and
      writing back what was read leaves the wrapper as it was. */
  lemma DerefMutTransparent<V>(b: ByAddress<V>, q: Pointer<V>)
    ensures Addr(DerefMut(b, _ => q)) == q.target
    ensures DerefMut(b, p => p) == b
    ensures Eq(DerefMut(b, _ => q), ByAddress(q))
  {
  }
}
