/**
 * The ownership handle of the naming layer: `id_type` holds an intrusive
 * reference-counted pointer to an `id_type_impl`, which is a GID together
 * with a reference count and a management mode.  When the last reference
 * goes away, the deleter chosen by the mode is run.
 *
 * The pointer value of an `id_type_impl` (used by the handle ordering) is
 * modelled as an abstract positive number fixed when the impl is created;
 * the null pointer is 0.
 */
module NamingId {
  import opened Wrappers
  import opened NamingGid

  /** id_type_management (and id_type::management_type, which mirrors it). */
  datatype Management = UnknownDeleter | Unmanaged | Managed | Transmission

  /** The three release routines gid_unmanaged_deleter, gid_managed_deleter, gid_transmission_deleter. */
  datatype Deleter = UnmanagedDeleter | ManagedDeleter | TransmissionDeleter

  /**
   * id_type_impl::get_deleter: a closed switch over the mode.  An unknown
   * mode trips a debug assertion; without it the unmanaged deleter is used.
   */
  function GetDeleter(t: Management): (d: Deleter)
    ensures d == ManagedDeleter <==> t == Managed
    ensures d == TransmissionDeleter <==> t == Transmission
    ensures d == UnmanagedDeleter <==> t == Unmanaged || t == UnknownDeleter
  {
    match t
    case Unmanaged => UnmanagedDeleter
    case Managed => ManagedDeleter
    case Transmission => TransmissionDeleter
    case UnknownDeleter => UnmanagedDeleter
  }

  /** Whether an `id_type` constructor taking a GID accepts it: managed handles need credit. */
  predicate CreditPermits(gid: Gid, t: Management) {
    Credit(gid) != 0 || t == Unmanaged || t == Transmission
  }

  /**
   * The transmission exemption is needed: halving a single credit keeps it
   * and gives away a share of 0, which a managed handle would refuse but the
   * transmission handle of split_credits accepts.
   */
  lemma SplitOfOneCreditNeedsExemption(g: Gid)
    requires Credit(g) == 1
    ensures Credit(Split(g, 2).0) == 1 && Credit(Split(g, 2).1) == 0
    ensures CreditPermits(Split(g, 2).1, Transmission) && !CreditPermits(Split(g, 2).1, Managed)
  {
    var r := Split(g, 2);
    assert Credit(r.1) == 1 / 2 == 0;
  }

  /** A non-null pointer value. */
  type Address = n: int | n > 0 witness 1

  /** id_type_impl: derives from gid_type; `base` is that gid_type part. */
  class IdTypeImpl {
    const base: GidObject
    var count: int
    const management: Management
    /** The impl's pointer value, as compared by the handle ordering. */
    const address: Address

    constructor (gid: Gid, t: Management, address': Address)
      ensures fresh(base) && base.Get() == gid
      ensures count == 0 && management == t && address == address'
    {
      base := new GidObject(gid.msb, gid.lsb);
      count := 0;
      management := t;
      address := address';
    }
  }

  /** intrusive_ptr_add_ref. */
  method IntrusivePtrAddRef(p: IdTypeImpl)
    modifies p
    ensures p.count == old(p.count) + 1
  {
    p.count := p.count + 1;
  }

  /**
   * intrusive_ptr_release: decrements the count and, when it reaches zero,
   * runs the deleter selected by the mode (returned here; its body is not modelled).
   */
  method IntrusivePtrRelease(p: IdTypeImpl) returns (deleted: Option<Deleter>)
    requires p.count >= 1
    modifies p
    ensures p.count == old(p.count) - 1
    ensures deleted == if p.count == 0 then Some(GetDeleter(p.management)) else None
  {
    p.count := p.count - 1;
    if p.count == 0 {
      deleted := Some(GetDeleter(p.management));
    } else {
      deleted := None;
    }
  }

  /** id_type: a handle sharing an id_type_impl with its copies. */
  class IdType {
    var impl: IdTypeImpl?

    /** The objects whose state the handle's value depends on. */
    function Repr(): set<object>
      reads this
    {
      if impl == null then {} else {impl, impl.base}
    }

    /** `id_type()`: the invalid handle. */
    constructor Invalid()
      ensures impl == null
    {
      impl := null;
    }

    /** `id_type(lsb_id, t)`: the high word is zero; no credit check. */
    constructor FromLsb(lsb: Word, t: Management, address: Address)
      ensures impl != null && fresh(impl) && fresh(impl.base)
      ensures impl.base.Get() == Gid(0, lsb) && impl.management == t
      ensures impl.count == 1 && impl.address == address
    {
      var p := new IdTypeImpl(Gid(0, lsb), t, address);
      IntrusivePtrAddRef(p);
      impl := p;
    }

    /** `id_type(gid, t)`: asserts that a managed GID carries credit. */
    constructor FromGid(gid: Gid, t: Management, address: Address)
      requires CreditPermits(gid, t)
      ensures impl != null && fresh(impl) && fresh(impl.base)
      ensures impl.base.Get() == gid && impl.management == t
      ensures t == Managed ==> Credit(impl.base.Get()) != 0
      ensures impl.count == 1 && impl.address == address
    {
      var p := new IdTypeImpl(gid, t, address);
      IntrusivePtrAddRef(p);
      impl := p;
    }

    /** `id_type(msb_id, lsb_id, t)`: the same check as FromGid. */
    constructor FromWords(msb: Word, lsb: Word, t: Management, address: Address)
      requires CreditPermits(Gid(msb, lsb), t)
      ensures impl != null && fresh(impl) && fresh(impl.base)
      ensures impl.base.Get() == Gid(msb, lsb) && impl.management == t
      ensures t == Managed ==> Credit(impl.base.Get()) != 0
      ensures impl.count == 1 && impl.address == address
    {
      var p := new IdTypeImpl(Gid(msb, lsb), t, address);
      IntrusivePtrAddRef(p);
      impl := p;
    }

    /** The copy constructor: shares the impl and adds a reference. */
    constructor Copy(other: IdType)
      modifies other.Repr()
      ensures impl == other.impl
      ensures other.impl != null ==> other.impl.count == old(other.impl.count) + 1
      ensures other.impl != null ==> other.impl.base.Get() == old(other.impl.base.Get())
    {
      impl := other.impl;
      if other.impl != null {
        IntrusivePtrAddRef(other.impl);
      }
    }

    /** The destructor: drops this handle's reference; a null handle holds none. */
    method Destroy() returns (deleted: Option<Deleter>)
      requires impl != null ==> impl.count >= 1
      modifies impl
      ensures impl != null ==> impl.count == old(impl.count) - 1
      ensures impl != null ==> deleted == if impl.count == 0 then Some(GetDeleter(impl.management)) else None
      ensures impl == null ==> deleted == None
    {
      if impl != null {
        deleted := IntrusivePtrRelease(impl);
      } else {
        deleted := None;
      }
    }

    /** The `safe_bool` conversion: an impl is present and its GID is non-zero. */
    predicate IsValid()
      reads this, Repr()
    {
      impl != null && NamingGid.IsValid(impl.base.Get())
    }

    /** `++id`: increments the shared GID. */
    method PreIncrement()
      requires impl != null
      modifies impl.base
      ensures impl.base.Get() == AddWord(old(impl.base.Get()), 1)
    {
      impl.base.PreIncrement();
    }

    /** `id++` as written: increments the shared GID and returns a copy of the handle AFTER the increment. */
    method PostIncrement() returns (r: IdType)
      requires impl != null
      modifies impl, impl.base
      ensures impl.base.Get() == AddWord(old(impl.base.Get()), 1)
      ensures fresh(r) && r.impl == impl && impl.count == old(impl.count) + 1
    {
      var _ := impl.base.PostIncrement();
      r := new IdType.Copy(this);
    }

    /** get_credit. */
    method GetCredit() returns (c: Word16)
      requires impl != null
      ensures c == Credit(impl.base.Get()) && c < CreditLimit
    {
      c := Credit(impl.base.Get());
    }

    /** strip_credit. */
    method StripCredit()
      requires impl != null
      modifies impl.base
      ensures impl.base.Get() == Strip(old(impl.base.Get()))
    {
      impl.base.StripCredit();
    }

    /** add_credit. */
    method AddCredit(credit: Word16) returns (total: Word16)
      requires impl != null && Credit(impl.base.Get()) + credit < CreditLimit
      modifies impl.base
      ensures (impl.base.Get(), total) == AddedCredit(old(impl.base.Get()), credit)
    {
      total := impl.base.AddCredit(credit);
    }

    /** set_credit: declared const, yet it changes the GID every copy shares. */
    method SetCredit(credit: Word16)
      requires impl != null && credit < CreditLimit
      modifies impl.base
      ensures impl.base.Get() == WithCredit(old(impl.base.Get()), credit)
    {
      impl.base.SetCredit(credit);
    }

    /** split_credits: the shared GID keeps its share; the split-off share becomes a new transmission handle. */
    method SplitCredits(fraction: int, address: Address) returns (r: IdType)
      requires impl != null
      requires fraction != 0 && -TwoTo31 <= fraction < TwoTo31
      modifies impl.base
      ensures fresh(r) && r.impl != null && fresh(r.impl) && fresh(r.impl.base)
      ensures (impl.base.Get(), r.impl.base.Get()) == Split(old(impl.base.Get()), fraction)
      ensures r.impl.management == Transmission && r.impl.count == 1
    {
      var given := impl.base.SplitCredits(fraction);
      r := new IdType.FromGid(given, Transmission, address);
    }

    /** was_split. */
    method WasSplit() returns (b: bool)
      requires impl != null
      ensures b == NamingGid.WasSplit(impl.base.Get())
    {
      b := NamingGid.WasSplit(impl.base.Get());
    }
  }

  /** `operator==` on handles: every invalid handle equals every other invalid handle. */
  function Equal(lhs: IdType, rhs: IdType): (r: bool)
    reads lhs, rhs, lhs.Repr(), rhs.Repr()
    ensures !lhs.IsValid() && !rhs.IsValid() ==> r
    ensures lhs.IsValid() != rhs.IsValid() ==> !r
    ensures lhs.IsValid() && rhs.IsValid() ==> (r <==> lhs.impl.base.Get() == rhs.impl.base.Get())
  {
    if !lhs.IsValid() then !rhs.IsValid()
    else if !rhs.IsValid() then !lhs.IsValid()
    else lhs.impl.base.Get() == rhs.impl.base.Get()
  }

  /** `gid_.get()`: the impl's pointer value, 0 for the null pointer. */
  function PointerOf(h: IdType): nat
    reads h, h.Repr()
  {
    if h.impl == null then 0 else h.impl.address
  }

  /**
   * `operator<` on handles compares impl pointers, not GIDs: irreflexive,
   * with the null handle below every other one.
   */
  function Less(lhs: IdType, rhs: IdType): (r: bool)
    reads lhs, rhs, lhs.Repr(), rhs.Repr()
    ensures lhs.impl == rhs.impl ==> !r
    ensures rhs.impl == null ==> !r
    ensures lhs.impl == null && rhs.impl != null ==> r
    ensures lhs.impl != null && rhs.impl != null ==> (r <==> lhs.impl.address < rhs.impl.address)
  {
    PointerOf(lhs) < PointerOf(rhs)
  }

  /** `operator<=` on handles: the complement of the reversed `<`, so the order is total. */
  function LessEq(lhs: IdType, rhs: IdType): (r: bool)
    reads lhs, rhs, lhs.Repr(), rhs.Repr()
    ensures r <==> !Less(rhs, lhs)
    ensures lhs.impl == rhs.impl || lhs.impl == null ==> r
  {
    PointerOf(lhs) <= PointerOf(rhs)
  }

  /** `operator>` on handles: `<` with the operands swapped. */
  function Greater(lhs: IdType, rhs: IdType): (r: bool)
    reads lhs, rhs, lhs.Repr(), rhs.Repr()
    ensures r <==> Less(rhs, lhs)
    ensures r ==> !LessEq(lhs, rhs)
  {
    PointerOf(lhs) > PointerOf(rhs)
  }

  /** `operator>=` on handles: the complement of `<`. */
  function GreaterEq(lhs: IdType, rhs: IdType): (r: bool)
    reads lhs, rhs, lhs.Repr(), rhs.Repr()
    ensures r <==> !Less(lhs, rhs)
    ensures r <==> LessEq(rhs, lhs)
  {
    PointerOf(lhs) >= PointerOf(rhs)
  }

  /**
   * Handle ordering disagrees with handle equality: two valid handles on
   * distinct impls holding the same GID are equal, yet one is less than the
   * other, and both are above the null handle.
   */
  lemma OrderingIgnoresGid(a: IdType, b: IdType, n: IdType)
    requires a.impl != null && b.impl != null && a.impl.address < b.impl.address
    requires a.IsValid() && a.impl.base.Get() == b.impl.base.Get()
    requires n.impl == null
    ensures Equal(a, b) && Less(a, b) && !Less(b, a)
    ensures Less(n, a) && !Equal(n, a)
  {
  }

  /**
   * A handle whose impl holds the zero GID is invalid: it equals the null
   * handle, yet orders strictly after it.
   */
  lemma InvalidHandleEqualsNull(a: IdType, n: IdType)
    requires a.impl != null && a.impl.base.Get() == InvalidGid
    requires n.impl == null
    ensures !a.IsValid() && Equal(a, n) && Equal(n, a)
    ensures Less(n, a) && !LessEq(a, n)
  {
  }

  /** Handles sharing an impl see each other's credit updates. */
  method CopiesShareCredit(a: IdType, credit: Word16) returns (seen: Word16)
    requires a.impl != null && credit < CreditLimit
    modifies a.impl, a.impl.base
    ensures seen == credit
  {
    var b := new IdType.Copy(a);
    b.SetCredit(credit);
    seen := a.GetCredit();
  }

  /** get_id_from_prefix: an unmanaged handle on the locality's GID. */
  method GetIdFromPrefix(prefix: Word32, address: Address) returns (r: IdType)
    ensures fresh(r) && r.impl != null && r.impl.management == Unmanaged
    ensures r.impl.base.Get() == GidFromPrefix(prefix)
    ensures r.impl.count == 1 && r.impl.address == address
  {
    var g := GidFromPrefix(prefix);
    r := new IdType.FromWords(g.msb, g.lsb, Unmanaged, address);
  }

  /** get_prefix_from_id. */
  function PrefixFromId(h: IdType): (p: Word32)
    requires h.impl != null
    reads h, h.Repr()
    ensures (p + 1) % TwoTo32 == High32(h.impl.base.Get().msb)
  {
    PrefixFromGid(h.impl.base.Get())
  }

  /** is_local_address on handles: delegates to the GIDs. */
  function IsLocalAddressId(gid: IdType, prefix: IdType): (b: bool)
    requires gid.impl != null && prefix.impl != null
    reads gid, gid.Repr(), prefix, prefix.Repr()
    ensures forall p: Word32 :: prefix.impl.base.Get() == GidFromPrefix(p) ==>
              (b <==> PrefixFromGid(gid.impl.base.Get()) == p && Low16(gid.impl.base.Get().msb) == 0)
  {
    LocalToEveryPrefix(gid.impl.base.Get(), prefix.impl.base.Get());
    IsLocalAddress(gid.impl.base.Get(), prefix.impl.base.Get())
  }

  /** IsLocalAddressOfPrefix for whichever prefix a locality GID was built from. */
  lemma LocalToEveryPrefix(g: Gid, locality: Gid)
    ensures forall p: Word32 :: locality == GidFromPrefix(p) ==>
              (IsLocalAddress(g, locality) <==> PrefixFromGid(g) == p && Low16(g.msb) == 0)
  {
    forall p: Word32 | locality == GidFromPrefix(p)
      ensures IsLocalAddress(g, locality) <==> PrefixFromGid(g) == p && Low16(g.msb) == 0
    {
      IsLocalAddressOfPrefix(g, p);
    }
  }
}
