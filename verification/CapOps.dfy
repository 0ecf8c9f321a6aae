/** Capability operations on spaces and epochs, and what each of them does to the bindings. */
module CapOps {
  import opened Wrappers
  import opened Bytes
  import opened Capabilities
  import opened CapSpace

  const EPOCHS: nat := 0x1_0000

  class CapEpoch {
    var epoch: U16

    constructor ()
      ensures epoch == 0
    {
      epoch := 0;
    }

    function Current(): U16
      reads this
    {
      epoch
    }

    /** Bumps the counter, wrapping at 2^16. */
    method Revoke() returns (next: U16)
      modifies this
      ensures next == epoch == (old(epoch) + 1) % EPOCHS
    {
      next := (epoch + 1) % EPOCHS;
      epoch := next;
    }

    predicate IsCurrent(capEpoch: U16)
      reads this
    {
      Current() == capEpoch
    }
  }

  datatype GrantResult = GrantResult(handle: Word, ok: bool)

  // ---- What each operation passes on ----

  /** `c` itself, or its attenuation to `narrower`, which must not ask for a right `c` lacks. */
  function Narrowed(c: Capability, narrower: bv16): Option<Capability> {
    if narrower == NO_RIGHTS then Some(c)
    else if c.Has(narrower) then Some(c.Attenuate(narrower)) else None
  }

  function Resolved(contents: map<Word, Capability>, epoch: U16, h: Word, required: bv16): Option<Capability> {
    if h in contents && contents[h].epoch == epoch && contents[h].Has(required) then Some(contents[h]) else None
  }

  function Granted(contents: map<Word, Capability>, epoch: U16, h: Word, narrower: bv16): Option<Capability> {
    match Resolved(contents, epoch, h, GRANT)
    case Some(c) => Narrowed(c, narrower)
    case None => None
  }

  function Duplicated(contents: map<Word, Capability>, h: Word, narrower: bv16): Option<Capability> {
    if h in contents then Narrowed(contents[h], narrower) else None
  }

  lemma NarrowedDerives(c: Capability, narrower: bv16)
    ensures Narrowed(c, narrower).Some? ==> Narrowed(c, narrower).value.DerivesFrom(c)
    ensures Narrowed(c, narrower).Some? && narrower != NO_RIGHTS ==> Narrowed(c, narrower).value.rights == narrower
  {
    DerivesReflexive(c);
    AttenuateDerives(c, narrower);
  }

  // ---- One transfer between two spaces, which may be the same ----

  /** A space's bindings and its handle counter. */
  datatype Space = Space(contents: map<Word, Capability>, next: Word)

  /** `c` bound to the handle the space allocates next; nothing bound if `h` is 0. */
  ghost predicate Inserted(s: Space, c: Capability, h: Word, s': Space) {
    Minted(s.contents.Keys, s.next, h, s'.next)
    && s' == Space(if h == INVALID_HANDLE then s.contents else s.contents[h := c], s'.next)
  }

  function Dropped(s: Space, h: Word): Space {
    Space(s.contents - {h}, s.next)
  }

  /**
   Binds `cap`, if there is one, in the destination and, when that works and `take` holds, unbinds `from` in
   the source. `same` says that source and destination are one space.
   */
  ghost predicate GrantEffect(src: Space, dst: Space, same: bool, from: Word, cap: Option<Capability>, take: bool,
                              h: Word, src': Space, dst': Space)
  {
    match cap
    case None => h == INVALID_HANDLE && src' == src && dst' == dst
    case Some(c) =>
      var drop := take && h != INVALID_HANDLE;
      if same then
        src' == dst'
        && if drop then exists mid :: Inserted(dst, c, h, mid) && dst' == Dropped(mid, from)
           else Inserted(dst, c, h, dst')
      else
        Inserted(dst, c, h, dst') && src' == if drop then Dropped(src, from) else src
  }

  // ---- The operations on space objects ----

  ghost function View(s: CapabilitySpace): Space
    reads s
  {
    Space(s.contents, s.nextHandle)
  }

  ghost predicate Separate(src: CapabilitySpace, dst: CapabilitySpace)
    reads src, dst
  {
    src != dst ==> src.repr !! dst.repr
  }

  method MintInto(space: CapabilitySpace, epoch: CapEpoch, oid: Word, rights: bv16, generation: Word)
    returns (h: Word)
    requires space.Valid()
    modifies space, space.repr
    ensures space.Valid() && fresh(space.repr - old(space.repr))
    ensures Inserted(old(View(space)), Capabilities.Mint(oid, rights, epoch.Current(), generation), h, View(space))
  {
    var ep := epoch.Current();
    var cap := Capabilities.Mint(oid, rights, ep, generation);
    h := space.Insert(cap);
  }

  method Resolve(space: CapabilitySpace, epoch: CapEpoch, h: Word, required: bv16) returns (cap: Option<Capability>)
    requires space.Valid()
    ensures cap == Resolved(space.contents, epoch.Current(), h, required)
  {
    cap := space.Lookup(h);
    if cap.None? {
      return None;
    }
    if !epoch.IsCurrent(cap.value.epoch) {
      return None;
    }
    if !cap.value.Has(required) {
      return None;
    }
  }

  function Attenuate(c: Capability, narrower: bv16): Option<Capability> {
    if c.Has(narrower) then Some(c.Attenuate(narrower)) else None
  }

  /** The part that granting and duplicating share. */
  method Transfer(src: CapabilitySpace, dst: CapabilitySpace, h: Word, cap: Capability, take: bool)
    returns (out: GrantResult)
    requires src.Valid() && dst.Valid() && Separate(src, dst)
    modifies src, src.repr, dst, dst.repr
    ensures src.Valid() && dst.Valid() && Separate(src, dst)
    ensures fresh(src.repr - old(src.repr)) && fresh(dst.repr - old(dst.repr))
    ensures out.ok == (out.handle != INVALID_HANDLE)
    ensures GrantEffect(old(View(src)), old(View(dst)), src == dst, h, Some(cap), take, out.handle,
              View(src), View(dst))
  {
    hide Minted, CapabilitySpace.Valid;
    var k := dst.Insert(cap);
    ghost var mid := View(dst);
    assert Inserted(old(View(dst)), cap, k, mid);
    if k == INVALID_HANDLE {
      return GrantResult(0, false);
    }
    if take {
      var gone := src.Erase(h);
      assert src == dst ==> View(dst) == Dropped(mid, h);
    }
    return GrantResult(k, true);
  }

  /** Grants to `dst` with optional attenuation; consumes the source handle when `take` holds. */
  method Grant(src: CapabilitySpace, dst: CapabilitySpace, epoch: CapEpoch, h: Word, narrower: bv16, take: bool)
    returns (out: GrantResult)
    requires src.Valid() && dst.Valid() && Separate(src, dst)
    modifies src, src.repr, dst, dst.repr
    ensures src.Valid() && dst.Valid() && Separate(src, dst)
    ensures fresh(src.repr - old(src.repr)) && fresh(dst.repr - old(dst.repr))
    ensures out.ok == (out.handle != INVALID_HANDLE)
    ensures GrantEffect(old(View(src)), old(View(dst)), src == dst, h,
                        Granted(old(src.contents), epoch.Current(), h, narrower), take,
                        out.handle, View(src), View(dst))
  {
    hide CapabilitySpace.Valid, Minted;
    out := GrantResult(0, false);
    var found := Resolve(src, epoch, h, GRANT);
    if found.None? {
      return;
    }
    var cap := found.value;
    if narrower != NO_RIGHTS {
      var att := Attenuate(cap, narrower);
      if att.None? {
        return;
      }
      cap := att.value;
    }
    hide GrantEffect;
    out := Transfer(src, dst, h, cap, take);
  }

  /** As Grant without taking, and without asking for the grant right or a current epoch. */
  method Duplicate(src: CapabilitySpace, dst: CapabilitySpace, h: Word, narrower: bv16) returns (out: GrantResult)
    requires src.Valid() && dst.Valid() && Separate(src, dst)
    modifies src, src.repr, dst, dst.repr
    ensures src.Valid() && dst.Valid() && Separate(src, dst)
    ensures fresh(src.repr - old(src.repr)) && fresh(dst.repr - old(dst.repr))
    ensures out.ok == (out.handle != INVALID_HANDLE)
    ensures GrantEffect(old(View(src)), old(View(dst)), src == dst, h,
                        Duplicated(old(src.contents), h, narrower), false,
                        out.handle, View(src), View(dst))
  {
    hide CapabilitySpace.Valid, Minted;
    out := GrantResult(0, false);
    var found := src.Lookup(h);
    if found.None? {
      return;
    }
    var cap := found.value;
    if narrower != NO_RIGHTS {
      var att := Attenuate(cap, narrower);
      if att.None? {
        return;
      }
      cap := att.value;
    }
    hide GrantEffect;
    out := Transfer(src, dst, h, cap, false);
  }

  method Move(src: CapabilitySpace, dst: CapabilitySpace, epoch: CapEpoch, h: Word, narrower: bv16)
    returns (out: GrantResult)
    requires src.Valid() && dst.Valid() && Separate(src, dst)
    modifies src, src.repr, dst, dst.repr
    ensures src.Valid() && dst.Valid() && Separate(src, dst)
    ensures fresh(src.repr - old(src.repr)) && fresh(dst.repr - old(dst.repr))
    ensures out.ok == (out.handle != INVALID_HANDLE)
    ensures GrantEffect(old(View(src)), old(View(dst)), src == dst, h,
                        Granted(old(src.contents), epoch.Current(), h, narrower), true,
                        out.handle, View(src), View(dst))
  {
    out := Grant(src, dst, epoch, h, narrower, true);
  }
}
