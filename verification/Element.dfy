/**
  The element that every list and table of this project links together.

  The macros of utlist.h and uthash.h work on any C structure that carries the link
  fields they are given; here that structure is one class.  The list macros use only
  next and prev.  A hash table also uses the fields of the embedded UT_hash_handle:
  the bucket links hhNext and hhPrev and the stored hash value.  The key is the part
  of the element that its user must not change, so it is constant.
 */
module Element {
  import opened Basics

  /** A key is its bytes; keylen is the length of the sequence. */
  type Key = seq<Byte>

  class Elem {
    var next: Elem?
    var prev: Elem?
    var hhNext: Elem?
    var hhPrev: Elem?
    var hashv: nat
    const key: Key

    constructor (key: Key)
      ensures this.key == key
    {
      this.key := key;
    }
  }

  /** The element at position i, or null just past the end. */
  function At(s: seq<Elem>, i: nat): Elem? {
    if i < |s| then s[i] else null
  }

  ghost predicate Within(s: seq<Elem>, nodes: set<Elem>) {
    forall x | x in s :: x in nodes
  }
}
