/** The stripped-down atomically reference-counted pointer (src/arc.rs),
    modelled sequentially: one allocation holds the count beside the value,
    a handle is nothing but the address of that allocation, and giving the
    allocation back sets a `freed` flag. */
module Arcs {
  import opened Prelude

  /** Above this many handles `clone` aborts the process. */
  const MAX_REFCOUNT: usize := ISIZE_MAX

  /** The single allocation a handle points to (`ArcInner`). */
  class ArcInner<T> {
    var count: usize
    var data: T
    /** Set once the allocation has been handed back by `drop_slow`. */
    var freed: bool
    /** The identities of the handles that currently own the allocation. */
    ghost var handles: set<nat>
    /** Every identity handed out so far is below this one. */
    ghost var issued: nat

    /** The count is the number of handles that own the allocation, and the
        allocation is freed exactly when no handle owns it any more. */
    ghost predicate Valid()
      reads this
    {
      && count == |handles|
      && (freed <==> handles == {})
      && forall h :: h in handles ==> h < issued
    }

    /** A fresh allocation owned by exactly one handle, the one with
        identity 0. */
    constructor (data: T)
      ensures Valid() && handles == {0} && issued == 1
      ensures count == 1 && !freed && this.data == data
    {
      count := 1;
      this.data := data;
      freed := false;
      handles := {0};
      issued := 1;
    }
  }

  /** The result of a total or partial comparison. */
  datatype Ordering = Less | Equal | Greater

  /** A handle: the address of its allocation, and a ghost identity that
      tells the handles owning one allocation apart. Copying the value is
      not `clone`: a copy is the same handle. */
  datatype Arc<T> = Arc(p: ArcInner<T>, ghost id: nat)
  {
    /** A handle may be used while it still owns its allocation. */
    ghost predicate Live()
      reads p
    {
      p.Valid() && id in p.handles
    }

    /** `ptr_eq`: both handles point to the same allocation, so they see one
        and the same value, count and set of owners. */
    function PtrEq(other: Arc<T>): (r: bool)
      reads p, other.p
      ensures r ==> p.data == other.p.data && p.count == other.p.count
      ensures r ==> p.handles == other.p.handles
    {
      p == other.p
    }

    /** `clone`: one more handle, with a new identity, to the same
        allocation. The source aborts once the count before the increment
        exceeds `MAX_REFCOUNT`. */
    method Clone() returns (c: Arc<T>)
      requires Live()
      requires p.count <= MAX_REFCOUNT
      modifies p
      ensures c.PtrEq(this) && PtrEq(c) && Live() && c.Live()
      ensures c.id !in old(p.handles) && p.handles == old(p.handles) + {c.id}
      ensures c.id == old(p.issued) && p.issued == old(p.issued) + 1
      ensures p.count == old(p.count) + 1 && p.count >= 2
      ensures p.data == old(p.data) && !p.freed
    {
      var oldSize := p.count;
      p.count := oldSize + 1;
      c := Arc(p, p.issued);
      p.handles := p.handles + {p.issued};
      p.issued := p.issued + 1;
    }

    /** `drop`: this handle gives up its allocation; the allocation is freed
        exactly when this was its last owner, that is when the count before
        the decrement was 1. */
    method Drop()
      requires Live()
      modifies p
      ensures p.Valid() && p.handles == old(p.handles) - {id}
      ensures p.count == old(p.count) - 1
      ensures p.freed <==> old(p.handles) == {id}
      ensures p.freed <==> old(p.count) == 1
      ensures p.data == old(p.data) && p.issued == old(p.issued)
    {
      SoleOwner(p.handles, id);
      var oldSize := p.count;
      p.count := oldSize - 1;
      p.handles := p.handles - {id};
      if oldSize != 1 {
        return;
      }
      p.freed := true;
    }

    /** `is_unique`: this is the only handle that owns its allocation. */
    method IsUnique() returns (b: bool)
      requires Live()
      ensures b <==> p.handles == {id}
      ensures b <==> p.count == 1
    {
      SoleOwner(p.handles, id);
      b := p.count == 1;
    }

    /** `get_mut`: mutable access to the value, granted only to the one
        handle of an allocation; the count is untouched either way. The
        access is the allocation itself, from which only `data` is meant to
        be used. */
    method GetMut() returns (r: Option<ArcInner<T>>)
      requires Live()
      ensures r.Some? <==> p.handles == {id}
      ensures r.Some? ==> r.value == p
    {
      var unique := IsUnique();
      if unique {
        r := Some(p);
      } else {
        r := None;
      }
    }

    /** `eq`: identity is accepted first; otherwise the contents decide,
        through `eqT`, the contents' own `==`. */
    function Eq(other: Arc<T>, eqT: (T, T) -> bool): (r: bool)
      reads p, other.p
      ensures PtrEq(other) ==> r
      ensures !PtrEq(other) ==> (r <==> eqT(p.data, other.p.data))
    {
      PtrEq(other) || eqT(p.data, other.p.data)
    }

    /** `ne`: different allocations whose contents are unequal under the
        contents' own `!=`, `neT`. */
    function Ne(other: Arc<T>, neT: (T, T) -> bool): (r: bool)
      reads p, other.p
      ensures r ==> !PtrEq(other)
      ensures !PtrEq(other) ==> (r <==> neT(p.data, other.p.data))
    {
      !PtrEq(other) && neT(p.data, other.p.data)
    }

    /** `partial_cmp` looks through the handles at the contents, through
        `pcmp`, the contents' own `partial_cmp`. Unlike `eq`, identity is
        not consulted first: a handle compared with itself gets whatever the
        contents say about themselves. */
    function PartialCmp(other: Arc<T>, pcmp: (T, T) -> Option<Ordering>): (r: Option<Ordering>)
      reads p, other.p
      ensures PtrEq(other) ==> r == pcmp(p.data, p.data)
    {
      pcmp(p.data, other.p.data)
    }

    /** `lt`, `le`, `gt` and `ge` look through the handles at the contents,
        through the contents' own operators `ltT`, `leT`, `gtT` and `geT`. */
    function Lt(other: Arc<T>, ltT: (T, T) -> bool): bool
      reads p, other.p
    {
      ltT(p.data, other.p.data)
    }

    function Le(other: Arc<T>, leT: (T, T) -> bool): bool
      reads p, other.p
    {
      leT(p.data, other.p.data)
    }

    function Gt(other: Arc<T>, gtT: (T, T) -> bool): bool
      reads p, other.p
    {
      gtT(p.data, other.p.data)
    }

    function Ge(other: Arc<T>, geT: (T, T) -> bool): bool
      reads p, other.p
    {
      geT(p.data, other.p.data)
    }

    /** `cmp`: the contents' total order, `cmp`; identity is not consulted
        first. */
    function Cmp(other: Arc<T>, cmp: (T, T) -> Ordering): (r: Ordering)
      reads p, other.p
      ensures PtrEq(other) ==> r == cmp(p.data, p.data)
    {
      cmp(p.data, other.p.data)
    }

    /** `hash`: the contents' hash, `hashT`. */
    function Hash(hashT: T -> int): int
      reads p
    {
      hashT(p.data)
    }
  }

  /** A handle owning an allocation is its only owner exactly when the
      allocation has one owner. */
  lemma SoleOwner(handles: set<nat>, id: nat)
    requires id in handles
    ensures |handles| == 1 <==> handles == {id}
  {
    if |handles| == 1 {
      assert |handles - {id}| == 0;
      assert handles - {id} == {};
    }
  }

  /** Once an allocation is freed no handle owns it, so none can be dropped
      again: it is freed exactly once. */
  lemma FreedHasNoOwner<T>(a: Arc<T>)
    requires a.p.Valid() && a.p.freed
    ensures !a.Live()
  {
  }

  /** A handle equals itself and its clones whatever the contents' `==`
      says, even when it is not reflexive; two distinct allocations with
      equal contents compare equal although they are not `ptr_eq`. */
  lemma EqualityOfHandles<T>(a: Arc<T>, b: Arc<T>, eqT: (T, T) -> bool)
    ensures a.PtrEq(b) ==> a.Eq(b, eqT) && b.Eq(a, eqT)
    ensures !a.PtrEq(b) && eqT(a.p.data, b.p.data) ==> a.Eq(b, eqT)
    ensures a.Eq(a, eqT)
  {
  }

  /** When the contents' `!=` is the negation of their `==`, `ne` is
      exactly the negation of `eq`. */
  lemma NeIsNotEq<T>(a: Arc<T>, b: Arc<T>, eqT: (T, T) -> bool, neT: (T, T) -> bool)
    requires forall x, y :: neT(x, y) == !eqT(x, y)
    ensures a.Ne(b, neT) == !a.Eq(b, eqT)
  {
  }

  /** `Eq` for handles: when the contents' total order and equality agree
      and equality is reflexive, as `Ord` and `Eq` demand, the identity
      shortcut of `eq` never disagrees with `cmp`. */
  lemma CmpAgreesWithEq<T>(a: Arc<T>, b: Arc<T>, eqT: (T, T) -> bool, cmp: (T, T) -> Ordering)
    requires forall x, y :: cmp(x, y) == Equal <==> eqT(x, y)
    requires forall x :: eqT(x, x)
    ensures a.Eq(b, eqT) <==> a.Cmp(b, cmp) == Equal
  {
  }

  /** Equal handles hash alike whenever equal contents hash alike, the
      identity shortcut of `eq` included. */
  lemma HashAgreesWithEq<T>(a: Arc<T>, b: Arc<T>, eqT: (T, T) -> bool, hashT: T -> int)
    requires forall x, y :: eqT(x, y) ==> hashT(x) == hashT(y)
    ensures a.Eq(b, eqT) ==> a.Hash(hashT) == b.Hash(hashT)
  {
  }

  /** When the contents' `<`, `<=`, `>` and `>=` agree with their
      `partial_cmp`, as `PartialOrd` demands, so do the handle's. */
  lemma OperatorsFollowPartialCmp<T>(a: Arc<T>, b: Arc<T>, pcmp: (T, T) -> Option<Ordering>,
                                     ltT: (T, T) -> bool, leT: (T, T) -> bool,
                                     gtT: (T, T) -> bool, geT: (T, T) -> bool)
    requires forall x, y :: ltT(x, y) <==> pcmp(x, y) == Some(Less)
    requires forall x, y :: leT(x, y) <==> pcmp(x, y) == Some(Less) || pcmp(x, y) == Some(Equal)
    requires forall x, y :: gtT(x, y) <==> pcmp(x, y) == Some(Greater)
    requires forall x, y :: geT(x, y) <==> pcmp(x, y) == Some(Greater) || pcmp(x, y) == Some(Equal)
    ensures a.Lt(b, ltT) <==> a.PartialCmp(b, pcmp) == Some(Less)
    ensures a.Le(b, leT) <==> a.Lt(b, ltT) || a.PartialCmp(b, pcmp) == Some(Equal)
    ensures a.Gt(b, gtT) <==> a.PartialCmp(b, pcmp) == Some(Greater)
    ensures a.Ge(b, geT) <==> a.Gt(b, gtT) || a.PartialCmp(b, pcmp) == Some(Equal)
  {
  }

  /** Comparison and hashing never consult identity: handles with the same
      contents compare and hash alike, wherever they point. */
  lemma ComparisonIgnoresIdentity<T>(a: Arc<T>, b: Arc<T>, a': Arc<T>, b': Arc<T>,
                                     pcmp: (T, T) -> Option<Ordering>,
                                     ltT: (T, T) -> bool, leT: (T, T) -> bool,
                                     gtT: (T, T) -> bool, geT: (T, T) -> bool,
                                     cmp: (T, T) -> Ordering, hashT: T -> int)
    requires a.p.data == a'.p.data && b.p.data == b'.p.data
    ensures a.PartialCmp(b, pcmp) == a'.PartialCmp(b', pcmp)
    ensures a.Lt(b, ltT) == a'.Lt(b', ltT) && a.Le(b, leT) == a'.Le(b', leT)
    ensures a.Gt(b, gtT) == a'.Gt(b', gtT) && a.Ge(b, geT) == a'.Ge(b', geT)
    ensures a.Cmp(b, cmp) == a'.Cmp(b', cmp)
    ensures a.Hash(hashT) == a'.Hash(hashT)
  {
  }

  /** The identities `base`, `base + 1`, ..., `base + k - 1`. */
  ghost function Issued(base: nat, k: nat): set<nat>
  {
    if k == 0 then {} else Issued(base, k - 1) + {base + k - 1}
  }

  /** The identities issued are exactly those in the range. */
  lemma IssuedRange(base: nat, k: nat, x: nat)
    ensures x in Issued(base, k) <==> base <= x < base + k
  {
  }

  /** Giving up the last identity issued takes one step back in the range. */
  lemma IssuedStep(owners: set<nat>, base: nat, k: nat)
    requires k > 0 && forall h :: h in owners ==> h < base
    ensures base + k - 1 in owners + Issued(base, k)
    ensures (owners + Issued(base, k)) - {base + k - 1} == owners + Issued(base, k - 1)
  {
    IssuedRange(base, k - 1, base + k - 1);
  }

  /** Clones `a` `n` times: the clones are new owners of `a`'s allocation,
      with the next `n` identities in order. */
  method CloneMany<T>(a: Arc<T>, n: nat) returns (clones: seq<Arc<T>>)
    requires a.Live()
    requires a.p.count + n <= MAX_REFCOUNT + 1
    modifies a.p
    ensures |clones| == n && a.Live() && a.p.data == old(a.p.data)
    ensures a.p.count == old(a.p.count) + n
    ensures a.p.handles == old(a.p.handles) + Issued(old(a.p.issued), n)
    ensures forall i :: 0 <= i < n ==> clones[i].p == a.p && clones[i].id == old(a.p.issued) + i
  {
    ghost var base := a.p.issued;
    clones := [];
    while |clones| < n
      invariant |clones| <= n
      invariant a.Live() && a.p.data == old(a.p.data)
      invariant a.p.count == old(a.p.count) + |clones|
      invariant a.p.issued == base + |clones|
      invariant a.p.handles == old(a.p.handles) + Issued(base, |clones|)
      invariant forall i :: 0 <= i < |clones| ==> clones[i].p == a.p && clones[i].id == base + i
    {
      var c := a.Clone();
      clones := clones + [c];
    }
  }

  /** Drops `clones`, last first: each gives up its ownership, and `a`,
      owning the allocation besides them, keeps it alive. */
  method DropAll<T>(a: Arc<T>, clones: seq<Arc<T>>, ghost owners: set<nat>, ghost base: nat)
    requires a.Live() && a.id in owners
    requires forall h :: h in owners ==> h < base
    requires a.p.handles == owners + Issued(base, |clones|)
    requires forall i :: 0 <= i < |clones| ==> clones[i].p == a.p && clones[i].id == base + i
    modifies a.p
    ensures a.Live() && a.p.handles == owners
    ensures a.p.count == old(a.p.count) - |clones| && !a.p.freed
    ensures a.p.data == old(a.p.data)
  {
    var k := |clones|;
    while k > 0
      invariant 0 <= k <= |clones|
      invariant a.Live() && a.p.data == old(a.p.data)
      invariant a.p.count == old(a.p.count) - (|clones| - k)
      invariant a.p.handles == owners + Issued(base, k)
    {
      var last := clones[k - 1];
      assert last.p == a.p && last.id == base + k - 1;
      IssuedStep(owners, base, k);
      assert a.id != last.id;
      last.Drop();
      k := k - 1;
    }
  }

  /** Cloning a handle `n` times and then dropping the `n` clones, last
      first, gives the allocation back its original owners and count and
      never frees it. */
  method CloneThenDrop<T>(a: Arc<T>, n: nat)
    requires a.Live()
    requires a.p.count + n <= MAX_REFCOUNT + 1
    modifies a.p
    ensures a.Live() && a.p.handles == old(a.p.handles)
    ensures a.p.count == old(a.p.count) && !a.p.freed
    ensures a.p.data == old(a.p.data)
  {
    ghost var owners, base := a.p.handles, a.p.issued;
    var clones := CloneMany(a, n);
    DropAll(a, clones, owners, base);
  }
}
