/** Raw pointers `*const T` as the wrapper sees them: a data address plus, for a pointer to an
    unsized target, one metadata word (a slice length or a vtable address). This module gives
    them the comparisons `core` gives raw pointers, which `ByAddress` delegates to. */
module Pointers {
  import opened Ordered

  /** Number of distinct machine words (`usize` on a 64-bit target). */
  const WORD_MODULUS: int := 0x1_0000_0000_0000_0000

  newtype Word = x: int | 0 <= x < WORD_MODULUS

  /** The second half of a fat pointer. Every pointer of one type `*const T` carries metadata
      of the same kind: `Thin` when `T` is sized, `Length` for slices and `str`, `VTable` for
      trait objects. */
  datatype Metadata = Thin | Length(len: Word) | VTable(table: Word)

  /** A raw pointer: data address and metadata. */
  datatype Ptr = Ptr(data: Word, meta: Metadata)

  /** Position of a metadata kind; only consulted when two kinds are compared, which two
      pointers of one type never do. */
  function KindIndex(m: Metadata): nat {
    match m
    case Thin => 0
    case Length(_) => 1
    case VTable(_) => 2
  }

  /** `<` on metadata: lengths as integers, vtables by their address. */
  predicate MetaLt(x: Metadata, y: Metadata) {
    match (x, y)
    case (Length(m), Length(n)) => m < n
    case (VTable(s), VTable(t)) => s < t
    case _ => KindIndex(x) < KindIndex(y)
  }

  /** `<` on raw pointers: the data address decides, and the metadata breaks a tie. */
  predicate PtrLt(a: Ptr, b: Ptr) {
    a.data < b.data || (a.data == b.data && MetaLt(a.meta, b.meta))
  }

  /** `impl Ord for *const T`: `Less` if `a < b`, `Equal` if `a == b` (address and metadata
      alike), `Greater` otherwise. It orders pointers as their fingerprints order integers, so
      it is a total order that answers `Equal` only for identical fat pointers. */
  function PtrCmp(a: Ptr, b: Ptr): (r: Ordering)
    ensures r == Compare(Fingerprint(a), Fingerprint(b))
  {
    LexOrderIsFingerprintOrder(a, b);
    if PtrLt(a, b) then Less else if a == b then Equal else Greater
  }

  /** The cast `p as *const ()`: keeps the data address and leaves no metadata for `Hash` to
      write. */
  function CastThin(p: Ptr): (r: Ptr)
    ensures r.data == p.data && MetadataWords(r.meta) == []
  {
    Ptr(p.data, Thin)
  }

  /** What `Hash` writes for a pointer's metadata: nothing for `()`, the length for a slice,
      the vtable address for a trait object. */
  function MetadataWords(m: Metadata): seq<Word> {
    match m
    case Thin => []
    case Length(n) => [n]
    case VTable(t) => [t]
  }

  // The whole fat pointer read as one number, address word first: the reference order that
  // `PtrCmp` is proved to follow.

  /** Room for every metadata value below one step of the data address. */
  const META_SPAN: int := 1 + 2 * WORD_MODULUS

  function MetaRank(m: Metadata): (r: nat)
    ensures r < META_SPAN
  {
    match m
    case Thin => 0
    case Length(n) => 1 + n as int
    case VTable(t) => 1 + WORD_MODULUS + t as int
  }

  function Fingerprint(p: Ptr): nat {
    p.data as int * META_SPAN + MetaRank(p.meta)
  }

  /** Metadata compare by their rank, and no two metadata share one. */
  lemma MetaRankOrder(x: Metadata, y: Metadata)
    ensures MetaLt(x, y) <==> MetaRank(x) < MetaRank(y)
    ensures MetaRank(x) == MetaRank(y) <==> x == y
  {
  }

  /** A lower data address gives a lower fingerprint, whatever the metadata of either. */
  lemma AddressDominates(a: Ptr, b: Ptr)
    requires a.data < b.data
    ensures Fingerprint(a) < Fingerprint(b)
  {
    var x, y := a.data as int, b.data as int;
    assert (y - x) * META_SPAN >= META_SPAN by {
      assert y - x >= 1;
    }
    calc {
      Fingerprint(a);
    <
      x * META_SPAN + META_SPAN;
    <=
      x * META_SPAN + (y - x) * META_SPAN;
    ==
      y * META_SPAN;
    <=
      Fingerprint(b);
    }
  }

  /** The lexicographic `<` on fat pointers is `<` on their fingerprints, and two pointers
      share a fingerprint only when they are identical. */
  lemma LexOrderIsFingerprintOrder(a: Ptr, b: Ptr)
    ensures PtrLt(a, b) <==> Fingerprint(a) < Fingerprint(b)
    ensures a == b <==> Fingerprint(a) == Fingerprint(b)
  {
    MetaRankOrder(a.meta, b.meta);
    if a.data < b.data {
      AddressDominates(a, b);
    } else if b.data < a.data {
      AddressDominates(b, a);
    }
  }
}
