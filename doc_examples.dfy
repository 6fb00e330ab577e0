/** The crate documentation's examples, restated over the model: shared `Rc` clones against a
    second allocation, slices of one array, and the hash collision between them. */
module DocExamples {
  import opened Pointers
  import opened Hashing
  import opened Wrapper

  /** The documentation's `hash` helper: a fresh `DefaultHasher` (nothing written yet), the
      value hashed into it, then `finish`. */
  function HashValue<V>(b: ByAddress<V>, finish: Finish): (r: Word)
    ensures r == finish([Addr(b).data])
  {
    finish(Hash(b, []))
  }

  /** `&v[0..n]` for an array `v` stored at `base`: a slice pointer at the array's own address
      whose length is `n`. */
  function Prefix<V>(base: Word, v: seq<V>, n: nat): (r: Pointer<seq<V>>)
    requires n <= |v| < WORD_MODULUS
    ensures r.target == Ptr(base, Length(n as Word)) && r.pointee == v[..n]
  {
    Pointer(Ptr(base, Length(n as Word)), v[..n])
  }

  /** Two clones of one `Rc` are equal; a second `Rc` holding an equal value lives elsewhere
      and is unequal, although all three dereference to the same number. */
  lemma RcClonesVersusNewAllocation(rc: Pointer<int>, other: Pointer<int>)
    requires rc.pointee == 5 && other.pointee == 5
    requires other.target.data != rc.target.data
    ensures var x, y, z := ByAddress(rc), ByAddress(rc), ByAddress(other);
      Eq(x, y) && !Eq(x, z) && Deref(x).pointee == Deref(y).pointee == Deref(z).pointee == 5
  {
  }

  /** Prefixes of one array compare equal exactly when their lengths agree, yet every hasher
      gives all of them the same hash. */
  lemma PrefixesOfOneArray<V>(base: Word, v: seq<V>, n: nat, m: nat)
    requires n <= |v| < WORD_MODULUS && m <= |v|
    ensures Eq(ByAddress(Prefix(base, v, n)), ByAddress(Prefix(base, v, m))) <==> n == m
    ensures forall finish: Finish ::
      HashValue(ByAddress(Prefix(base, v, n)), finish) == HashValue(ByAddress(Prefix(base, v, m)), finish)
  {
    if n != m {
      assert Length(n as Word) != Length(m as Word);
    }
  }

  /** `v = [1, 2, 3, 4]`: `&v[0..4]` equals itself, differs from `&v[0..2]`, and hashes the
      same as it. */
  lemma SliceDocExample(base: Word)
    ensures var whole, half := Prefix(base, [1, 2, 3, 4], 4), Prefix(base, [1, 2, 3, 4], 2);
      && Eq(ByAddress(whole), ByAddress(whole))
      && !Eq(ByAddress(whole), ByAddress(half))
      && forall finish: Finish :: HashValue(ByAddress(whole), finish) == HashValue(ByAddress(half), finish)
  {
    PrefixesOfOneArray(base, [1, 2, 3, 4], 4, 2);
  }
}
