# by_address in Dafny

A model of the `by_address` crate: `ByAddress<T>` wraps any pointer type `T` (a reference, a
raw pointer, `Rc`, `Box`, `Vec`, `String`, ...). Its equality, ordering and hashing are those
of the pointer to the wrapped value's target, not those of the target's value. Pointers are
modelled without memory. A raw pointer `*const T::Target` is a data address (a 64-bit word)
plus metadata: nothing for a sized target, a length for a slice, a vtable address for a
trait object. A pointer-like value `T` is that raw pointer together with the value stored at
its target.

- `ordered.dfy` (module `Ordered`): `Ordering`, `Option`, and integer comparison as the reference
  total order.
- `pointers.dfy` (module `Pointers`): machine words, fat raw pointers, and the `<`, `==` and
  `cmp` that `core` gives raw pointers. It also defines the cast to a thin pointer. The
  *fingerprint* reads a fat pointer as one integer, address word first. Raw pointer `cmp` is
  proved to be integer comparison of fingerprints.
- `hashing.dfy` (module `Hashing`): a `Hasher` is the sequence of words written into it.
  `finish` is an arbitrary function of that sequence, because the hasher is foreign code.
  This module also holds `Hash` for raw pointers.
- `by_address.dfy` (module `Wrapper`): `ByAddress` with `addr`, `deref`, `deref_mut`,
  `hash`, `eq`, `cmp` and `partial_cmp`, and the laws that hashed and ordered collections
  rely on.
- `doc_examples.dfy` (module `DocExamples`): the crate documentation's examples. They cover
  `Rc` clones against a new allocation, slices of one array, and the hash collision between
  slices.
- `call_each_once.dfy` (module `CallEachOnce`): the documentation's `call_each_once`, which
  de-duplicates callbacks through a `HashSet<ByAddress<&dyn Fn()>>`. It is modelled as
  written and as corrected (see Findings).

This version of src/lib.rs has no `ByThinAddress`, hashes only the data address (as its
documentation at lines 59-61 and its comment at lines 125-126 say), derives `Debug`, and puts
no layout attribute on the struct.

## Model

| member | source | states |
|---|---|---|
| `Wrapper.Addr` | src/lib.rs:101-102 | `addr` is the raw pointer to the target of the wrapped pointer that `deref` returns |
| `Wrapper.Eq` | src/lib.rs:131-135 | `eq` holds exactly when the two raw pointers have the same fingerprint, that is, are the same fat pointer |
| `Wrapper.Deref` | src/lib.rs:105-109 | wrapping the returned pointer again gives back the same wrapper: the wrapper holds nothing besides the pointer |
| `Wrapper.DerefMut` | src/lib.rs:111-113 | what is written through the exclusive borrow becomes exactly what `deref` returns afterwards |
| `Wrapper.DerefMutTransparent` | src/lib.rs:111-113 | after a write through `deref_mut`, the wrapper has the identity of the written pointer; writing back what was read changes nothing |
| `Wrapper.Hash` | src/lib.rs:123-128 | the hasher receives exactly one word, the data address, and no metadata |
| `Wrapper.HashConsistentWithEq` | src/lib.rs:123-135 | equal wrappers write the same words, so every hasher gives them equal hashes |
| `Wrapper.HashSeesOnlyDataAddress` | src/lib.rs:123-128 | two wrappers write the same words if and only if their data addresses agree |
| `Wrapper.HashCollidesOnMetadata` | src/lib.rs:125-127 | one data address with two different metadata gives unequal wrappers with equal hashes |
| `Wrapper.EqIsEquivalence` | src/lib.rs:131-137 | `eq` is reflexive, symmetric and transitive, as the `Eq` marker promises |
| `Wrapper.EqIffSameFatPointer` | src/lib.rs:131-135 | equal if and only if both the data address and the metadata agree |
| `Wrapper.EqIgnoresPointee` | src/lib.rs:14-24 | equality depends on the target pointer alone: one place with any stored values is equal, two places with equal values are unequal |
| `Wrapper.Cmp` | src/lib.rs:139-143 | `cmp` answers `Equal` exactly when `eq` holds, and orders as the integer comparison of fingerprints |
| `Wrapper.CmpAntisymmetric` | src/lib.rs:139-143 | `cmp(a, b)` is `cmp(b, a)` reversed |
| `Wrapper.CmpTransitive` | src/lib.rs:139-143 | `Less`, `Equal` and `Greater` are each transitive, and so is `<=` |
| `Wrapper.LeIsTotalOrder` | src/lib.rs:139-143 | `<=` is reflexive and total, and holds both ways exactly for `eq` pairs |
| `Wrapper.CmpAddressFirst` | src/lib.rs:46-48 | a lower data address is `Less` whatever the metadata; on equal addresses the metadata decides |
| `Wrapper.PartialCmp` | src/lib.rs:145-149 | `partial_cmp` always returns `Some`, holding what `cmp` returns |
| `Pointers.PtrCmp` | src/lib.rs:141 | raw pointer `cmp` on fat pointers equals integer comparison of their fingerprints, so it is a total order that is `Equal` only on identical pointers |
| `Pointers.LexOrderIsFingerprintOrder` | src/lib.rs:141 | the address-then-metadata `<` on fat pointers is `<` on fingerprints, and equal fingerprints mean identical pointers |
| `Pointers.CastThin` | src/lib.rs:127 | the cast to `*const ()` keeps the data address and leaves no metadata for hashing to write |
| `Pointers.AddressDominates` | src/lib.rs:141 | a lower data address gives a lower fingerprint, whatever the metadata |
| `Pointers.MetaRankOrder` | src/lib.rs:141 | metadata compare by rank, and distinct metadata have distinct ranks |
| `Hashing.HashPtr` | src/lib.rs:127 | hashing a raw pointer keeps what was written, then writes the data address; it writes more only for fat pointers |
| `DocExamples.HashValue` | src/lib.rs:68-72 | the documentation's `hash` helper gives what `finish` makes of the data address alone, on a fresh hasher |
| `DocExamples.Prefix` | src/lib.rs:53-56 | `&v[0..n]` points at the array's address with length `n` as metadata, and its target holds the first `n` elements |
| `DocExamples.RcClonesVersusNewAllocation` | src/lib.rs:14-24 | two clones of one `Rc` are equal; a second `Rc` of the same value elsewhere is unequal; all three dereference to 5 |
| `DocExamples.PrefixesOfOneArray` | src/lib.rs:46-61 | prefixes of one array are equal if and only if their lengths agree, yet every hasher hashes them all alike |
| `DocExamples.SliceDocExample` | src/lib.rs:53-76 | `&v[0..4]` equals itself, differs from `&v[0..2]`, and hashes the same as it |
| `CallEachOnce.Insert` | src/lib.rs:39 | `HashSet::insert` reports `true` exactly when no equal key was present, stores the key only then, and holds the key afterwards |
| `CallEachOnce.HashedLookupComplete` | src/lib.rs:37-39 | searching only the keys whose hash matches the probe's finds an equal key exactly when one is present, for every hasher |
| `CallEachOnce.FirstOccurrences` | src/lib.rs:36-43 | the first callback at each address: every callback's address is covered, no address twice, each taken from the list |
| `CallEachOnce.FirstOccurrencesEarliestInOrder` | src/lib.rs:36-43 | the first occurrences sit in the list at increasing positions, each where its address first appears |
| `CallEachOnce.Repeats` | src/lib.rs:39-41 | the repeats are drawn from the callbacks, and with the first occurrences their number is the number of callbacks |
| `CallEachOnce.RepeatsPartition` | src/lib.rs:36-43 | repeats and first occurrences together are the callbacks, as multisets: each callback is in exactly one of the two |
| `CallEachOnce.RepeatsLaterInOrder` | src/lib.rs:39-41 | the repeats sit in the list at increasing positions, each behind an earlier callback at its address |
| `CallEachOnce.CountAtRepeats` | src/lib.rs:39-41 | as written, every address is called one time fewer than it is passed |
| `CallEachOnce.CountAtFirstOccurrences` | src/lib.rs:36-43 | corrected, every address that is passed is called exactly once, and no other address is |
| `CallEachOnce.CallEachOnceAsWritten` | src/lib.rs:36-43 | the calls made as written are the callbacks whose address already appeared earlier |
| `CallEachOnce.AsWrittenMissesAndRepeats` | src/lib.rs:39-41 | as written, a lone callback is never called and one passed three times is called twice |
| `CallEachOnce.CallEachOnce` | src/lib.rs:36-43 | corrected: the calls are the first occurrences, so every distinct callback is called exactly once |

## Left out

- The concrete hasher (`Hasher`, `DefaultHasher`) is foreign code. It is modelled by the words it receives, with `finish` as an arbitrary function of them.
- Real memory, raw-pointer casts and the `Deref` impls of `Rc`, `Box`, `Vec` and `String` are abstracted. Each pointer-like value is a raw pointer plus the value stored at its target. Allocation is not modelled: that two live allocations have different addresses is a precondition of the `Rc` example.
- `AsRef` and `AsMut` (src/lib.rs:115-121) only forward to the wrapped type's own impls.
- The derived `Debug`, `Copy`, `Clone` and `Default` (src/lib.rs:97) are generated by the compiler.
- `no_std` (src/lib.rs:87) and memory layout are build and ABI concerns. This version of the struct has no layout attribute and no borrow-reinterpreting constructor.
- `ByThinAddress` and a data-address-only comparison are not in src/lib.rs.
- Metadata of different kinds are given an order (thin, then lengths, then vtables), but two pointers of one Rust pointer type always carry metadata of the same kind.
- `HashSet` is modelled only by the `insert` behaviour `call_each_once` uses: its keys in insertion order, searched by the wrapper's `eq`.
- The callback invocation `f()` is modelled as the list of callbacks called, in order. What the callbacks do is not modelled.

## Findings

| source | as written | input that shows it | evidently intended | confidence | as-written member | corrected member |
|---|---|---|---|---|---|---|
| src/lib.rs:39-41 | `call_each_once` calls `f()` when `seen.insert` returns `false`, which happens only when an equal key is already in the set | `[f]`: `f` is never called; `[f, f, f]`: `f` is called twice | `if seen.insert(ByAddress(f)) { f(); }`: call each distinct callback once, on its first occurrence | high; not executed | `CallEachOnce.CallEachOnceAsWritten`, shown by `CallEachOnce.AsWrittenMissesAndRepeats` and `CallEachOnce.CountAtRepeats` | `CallEachOnce.CallEachOnce` |
