/** Runs of capability operations over any number of spaces and epochs. */
module CapRuns {
  import opened Wrappers
  import opened Bytes
  import opened Capabilities
  import opened CapSpace
  import opened CapOps

  datatype World = World(spaces: seq<Space>, epochs: seq<U16>)

  datatype Op =
    | MintOp(space: nat, epoch: nat, oid: Word, rights: bv16, generation: Word)
    | GrantOp(src: nat, dst: nat, epoch: nat, handle: Word, narrower: bv16, take: bool)
    | DuplicateOp(src: nat, dst: nat, handle: Word, narrower: bv16)
    | RevokeOp(epoch: nat)

  predicate InRange(w: World, op: Op) {
    match op
    case MintOp(i, e, _, _, _) => i < |w.spaces| && e < |w.epochs|
    case GrantOp(i, j, e, _, _, _) => i < |w.spaces| && j < |w.spaces| && e < |w.epochs|
    case DuplicateOp(i, j, _, _) => i < |w.spaces| && j < |w.spaces|
    case RevokeOp(e) => e < |w.epochs|
  }

  /** One operation; `h` is the handle it reports, 0 when it binds nothing. */
  ghost predicate Step(w: World, op: Op, h: Word, w': World) {
    InRange(w, op) && |w'.spaces| == |w.spaces|
    && match op
       case MintOp(i, e, oid, rights, generation) =>
         w' == World(w.spaces[i := w'.spaces[i]], w.epochs)
         && Inserted(w.spaces[i], Capabilities.Mint(oid, rights, w.epochs[e], generation), h, w'.spaces[i])
       case GrantOp(i, j, e, from, narrower, take) =>
         w' == World(w.spaces[i := w'.spaces[i]][j := w'.spaces[j]], w.epochs)
         && GrantEffect(w.spaces[i], w.spaces[j], i == j, from,
                        Granted(w.spaces[i].contents, w.epochs[e], from, narrower), take,
                        h, w'.spaces[i], w'.spaces[j])
       case DuplicateOp(i, j, from, narrower) =>
         w' == World(w.spaces[i := w'.spaces[i]][j := w'.spaces[j]], w.epochs)
         && GrantEffect(w.spaces[i], w.spaces[j], i == j, from,
                        Duplicated(w.spaces[i].contents, from, narrower), false,
                        h, w'.spaces[i], w'.spaces[j])
       case RevokeOp(e) =>
         h == INVALID_HANDLE && w' == World(w.spaces, w.epochs[e := (w.epochs[e] + 1) % EPOCHS])
  }

  // ---- What a run has done: mints, revokes, and where each held capability comes from ----

  /** A capability as minted, with the epoch used and how often that had been revoked by then. */
  datatype MintRecord = MintRecord(cap: Capability, epoch: nat, revokes: nat)

  datatype History = History(log: seq<MintRecord>, revokes: seq<nat>, origins: seq<map<Word, nat>>)

  function Put(origins: map<Word, nat>, h: Word, k: nat): map<Word, nat> {
    origins[h := k]
  }

  function Rebound(origins: seq<map<Word, nat>>, i: nat, j: nat, from: Word, take: bool, h: Word)
    : (r: seq<map<Word, nat>>)
    requires i < |origins| && j < |origins|
    ensures |r| == |origins|
  {
    if h == INVALID_HANDLE || from !in origins[i] then origins
    else
      var mid := origins[j := Put(origins[j], h, origins[i][from])];
      if take then mid[i := mid[i] - {from}] else mid
  }

  function Record(s: History, w: World, op: Op, h: Word): History
    requires InRange(w, op) && |s.origins| == |w.spaces| && |s.revokes| == |w.epochs|
  {
    match op
    case MintOp(i, e, oid, rights, generation) =>
      if h == INVALID_HANDLE then s
      else
        var cap := Capabilities.Mint(oid, rights, w.epochs[e], generation);
        History(s.log + [MintRecord(cap, e, s.revokes[e])], s.revokes,
                s.origins[i := Put(s.origins[i], h, |s.log|)])
    case GrantOp(i, j, _, from, _, take) => s.(origins := Rebound(s.origins, i, j, from, take, h))
    case DuplicateOp(i, j, from, _) => s.(origins := Rebound(s.origins, i, j, from, false, h))
    case RevokeOp(e) => s.(revokes := s.revokes[e := s.revokes[e] + 1])
  }

  datatype Taken = Taken(op: Op, handle: Word, after: World)

  /** A run from `w` with history `s` to `w'` with history `s'`. */
  ghost predicate Run(w: World, s: History, steps: seq<Taken>, w': World, s': History)
    decreases |steps|
  {
    if steps == [] then w' == w && s' == s
    else
      Step(w, steps[0].op, steps[0].handle, steps[0].after)
      && |s.origins| == |w.spaces| && |s.revokes| == |w.epochs|
      && Run(steps[0].after, Record(s, w, steps[0].op, steps[0].handle), steps[1..], w', s')
  }

  /** The capabilities of one space derive from the mints that `origins` names. */
  ghost predicate Derived(contents: map<Word, Capability>, origins: map<Word, nat>, log: seq<MintRecord>) {
    origins.Keys == contents.Keys && INVALID_HANDLE !in contents
    && forall h: Word | h in contents :: origins[h] < |log| && contents[h].DerivesFrom(log[origins[h]].cap)
  }

  ghost predicate EpochsCounted(w: World, s: History) {
    |s.revokes| == |w.epochs|
    && (forall e | 0 <= e < |w.epochs| :: w.epochs[e] == s.revokes[e] % EPOCHS)
    && (forall k | 0 <= k < |s.log| ::
          s.log[k].epoch < |s.revokes| && s.log[k].revokes <= s.revokes[s.log[k].epoch]
          && s.log[k].cap.epoch == s.log[k].revokes % EPOCHS)
  }

  /** What every run keeps. */
  ghost predicate Sound(w: World, s: History) {
    |s.origins| == |w.spaces| && EpochsCounted(w, s)
    && forall i | 0 <= i < |w.spaces| :: Derived(w.spaces[i].contents, s.origins[i], s.log)
  }

  // ---- Preservation ----

  lemma DerivedMore(contents: map<Word, Capability>, origins: map<Word, nat>, log: seq<MintRecord>, r: MintRecord)
    requires Derived(contents, origins, log)
    ensures Derived(contents, origins, log + [r])
  {
  }

  lemma DerivedBind(contents: map<Word, Capability>, origins: map<Word, nat>, log: seq<MintRecord>,
                    h: Word, c: Capability, k: nat)
    requires Derived(contents, origins, log) && h != INVALID_HANDLE && k < |log| && c.DerivesFrom(log[k].cap)
    ensures Derived(contents[h := c], Put(origins, h, k), log)
  {
    assert Put(origins, h, k).Keys == origins.Keys + {h} && contents[h := c].Keys == contents.Keys + {h};
  }

  lemma DerivedDrop(contents: map<Word, Capability>, origins: map<Word, nat>, log: seq<MintRecord>, h: Word)
    requires Derived(contents, origins, log)
    ensures Derived(contents - {h}, origins - {h}, log)
  {
    assert (origins - {h}).Keys == origins.Keys - {h} && (contents - {h}).Keys == contents.Keys - {h};
  }

  lemma MintKeepsSound(w: World, s: History, op: Op, h: Word, w': World)
    requires Sound(w, s) && op.MintOp? && Step(w, op, h, w')
    ensures Sound(w', Record(s, w, op, h))
  {
    var s' := Record(s, w, op, h);
    var i := op.space;
    if h != INVALID_HANDLE {
      var rec := s'.log[|s.log|];
      assert s'.log == s.log + [rec];
      forall k | 0 <= k < |w.spaces| ensures Derived(w'.spaces[k].contents, s'.origins[k], s'.log) {
        DerivedMore(w.spaces[k].contents, s.origins[k], s.log, rec);
        if k == i {
          DerivesReflexive(rec.cap);
          DerivedBind(w.spaces[i].contents, s.origins[i], s'.log, h, rec.cap, |s.log|);
        }
      }
    }
  }

  /** Binding a capability derived from the one at `from`, and dropping that one if `take` holds. */
  lemma TransferKeepsDerived(src: Space, dst: Space, same: bool, from: Word, cap: Option<Capability>, take: bool,
                             h: Word, src': Space, dst': Space, so: map<Word, nat>, do: map<Word, nat>,
                             log: seq<MintRecord>)
    requires GrantEffect(src, dst, same, from, cap, take, h, src', dst')
    requires Derived(src.contents, so, log) && Derived(dst.contents, do, log)
    requires same ==> src == dst && so == do
    requires cap.Some? ==> from in src.contents && cap.value.DerivesFrom(src.contents[from])
    ensures h != INVALID_HANDLE ==> from in so
    ensures var bound := if h == INVALID_HANDLE then do else Put(do, h, so[from]);
            var drop := take && h != INVALID_HANDLE;
            Derived(dst'.contents, if same && drop then bound - {from} else bound, log)
            && (!same ==> Derived(src'.contents, if drop then so - {from} else so, log))
  {
    hide Minted;
    if h != INVALID_HANDLE {
      var c := cap.value;
      DerivesTransitive(c, src.contents[from], log[so[from]].cap);
      DerivedBind(dst.contents, do, log, h, c, so[from]);
      DerivedDrop(dst.contents[h := c], Put(do, h, so[from]), log, from);
      DerivedDrop(src.contents, so, log, from);
    }
  }

  lemma TransferKeepsSound(w: World, s: History, i: nat, j: nat, from: Word, cap: Option<Capability>, take: bool,
                           h: Word, w': World)
    requires Sound(w, s) && i < |w.spaces| && j < |w.spaces| && |w'.spaces| == |w.spaces|
    requires w' == World(w.spaces[i := w'.spaces[i]][j := w'.spaces[j]], w.epochs)
    requires GrantEffect(w.spaces[i], w.spaces[j], i == j, from, cap, take, h, w'.spaces[i], w'.spaces[j])
    requires cap.Some? ==> from in w.spaces[i].contents && cap.value.DerivesFrom(w.spaces[i].contents[from])
    ensures Sound(w', s.(origins := Rebound(s.origins, i, j, from, take, h)))
  {
    hide GrantEffect, Derived;
    var s' := s.(origins := Rebound(s.origins, i, j, from, take, h));
    TransferKeepsDerived(w.spaces[i], w.spaces[j], i == j, from, cap, take, h, w'.spaces[i], w'.spaces[j],
                         s.origins[i], s.origins[j], s.log);
    forall k | 0 <= k < |w'.spaces| ensures Derived(w'.spaces[k].contents, s'.origins[k], s'.log) {
    }
  }

  lemma RevokeKeepsSound(w: World, s: History, op: Op, h: Word, w': World)
    requires Sound(w, s) && op.RevokeOp? && Step(w, op, h, w')
    ensures Sound(w', Record(s, w, op, h))
  {
    hide Derived, EpochsCounted;
    EpochsAfterRevoke(w, s, op.epoch);
  }

  lemma EpochsAfterRevoke(w: World, s: History, e: nat)
    requires EpochsCounted(w, s) && e < |w.epochs|
    ensures EpochsCounted(World(w.spaces, w.epochs[e := (w.epochs[e] + 1) % EPOCHS]),
                          History(s.log, s.revokes[e := s.revokes[e] + 1], s.origins))
  {
  }

  lemma NarrowedFrom(w: World, op: Op)
    requires InRange(w, op) && (op.GrantOp? || op.DuplicateOp?)
    ensures var contents := w.spaces[op.src].contents;
            var cap := if op.GrantOp? then Granted(contents, w.epochs[op.epoch], op.handle, op.narrower)
                       else Duplicated(contents, op.handle, op.narrower);
            cap.Some? ==> op.handle in contents && cap.value.DerivesFrom(contents[op.handle])
  {
    var contents := w.spaces[op.src].contents;
    if op.handle in contents {
      NarrowedDerives(contents[op.handle], op.narrower);
    }
  }

  lemma StepKeepsSound(w: World, s: History, op: Op, h: Word, w': World)
    requires Sound(w, s) && Step(w, op, h, w')
    ensures Sound(w', Record(s, w, op, h))
  {
    hide GrantEffect, Derived, EpochsCounted, Granted, Duplicated, Inserted;
    match op
    case MintOp(_, _, _, _, _) => MintKeepsSound(w, s, op, h, w');
    case GrantOp(i, j, e, from, narrower, take) =>
      NarrowedFrom(w, op);
      TransferKeepsSound(w, s, i, j, from, Granted(w.spaces[i].contents, w.epochs[e], from, narrower), take, h, w');
    case DuplicateOp(i, j, from, narrower) =>
      NarrowedFrom(w, op);
      TransferKeepsSound(w, s, i, j, from, Duplicated(w.spaces[i].contents, from, narrower), false, h, w');
    case RevokeOp(_) => RevokeKeepsSound(w, s, op, h, w');
  }

  /** Empty spaces and unrevoked epochs. */
  function Start(spaces: nat, epochs: nat): World {
    World(seq(spaces, _ => Space(map[], 1)), seq(epochs, _ => 0))
  }

  function StartHistory(spaces: nat, epochs: nat): History {
    History([], seq(epochs, _ => 0), seq(spaces, _ => map[]))
  }

  lemma {:induction false} RunKeepsSound(w: World, s: History, steps: seq<Taken>, w': World, s': History)
    requires Sound(w, s) && Run(w, s, steps, w', s')
    ensures Sound(w', s')
    decreases |steps|
  {
    if steps != [] {
      StepKeepsSound(w, s, steps[0].op, steps[0].handle, steps[0].after);
      RunKeepsSound(steps[0].after, Record(s, w, steps[0].op, steps[0].handle), steps[1..], w', s');
    }
  }

  // ---- Main results ----

  /**
   In every run, every held capability has the object id, epoch and generation of the mint it descends
   from, and at most its rights.
   */
  lemma HeldCapabilitiesDescend(spaces: nat, epochs: nat, steps: seq<Taken>, w: World, s: History, i: nat, h: Word)
    requires Run(Start(spaces, epochs), StartHistory(spaces, epochs), steps, w, s)
    requires i < |w.spaces| && h in w.spaces[i].contents
    ensures i < |s.origins| && h in s.origins[i] && s.origins[i][h] < |s.log|
    ensures w.spaces[i].contents[h].DerivesFrom(s.log[s.origins[i][h]].cap)
  {
    RunKeepsSound(Start(spaces, epochs), StartHistory(spaces, epochs), steps, w, s);
    assert Derived(w.spaces[i].contents, s.origins[i], s.log);
  }

  /**
   A held capability resolves against an epoch exactly when it has the required rights and the number of revokes
   of that epoch agrees, modulo 2^16, with the number at its mint.
   */
  lemma ResolvesIffEpochsAgree(spaces: nat, epochs: nat, steps: seq<Taken>, w: World, s: History,
                               i: nat, h: Word, e: nat, required: bv16)
    requires Run(Start(spaces, epochs), StartHistory(spaces, epochs), steps, w, s)
    requires i < |w.spaces| && e < |w.epochs| && h in w.spaces[i].contents
    ensures |s.revokes| == |w.epochs| && i < |s.origins| && h in s.origins[i] && s.origins[i][h] < |s.log|
    ensures Resolved(w.spaces[i].contents, w.epochs[e], h, required).Some?
            <==> Includes(w.spaces[i].contents[h].rights, required)
                 && s.log[s.origins[i][h]].revokes % EPOCHS == s.revokes[e] % EPOCHS
  {
    hide Common, Includes;
    IncludesIs(w.spaces[i].contents[h].rights, required);
    HeldCapabilitiesDescend(spaces, epochs, steps, w, s, i, h);
    RunKeepsSound(Start(spaces, epochs), StartHistory(spaces, epochs), steps, w, s);
    assert w.epochs[e] == s.revokes[e] % EPOCHS;
    assert s.log[s.origins[i][h]].cap.epoch == s.log[s.origins[i][h]].revokes % EPOCHS;
  }

  /** Revoking an epoch `n` times makes what resolved against it resolve again only when 2^16 divides `n`. */
  lemma RevokedUntilWrap(contents: map<Word, Capability>, epoch: U16, h: Word, required: bv16, n: nat)
    requires Resolved(contents, epoch, h, required).Some?
    ensures Resolved(contents, (epoch + n) % EPOCHS, h, required).Some? <==> n % EPOCHS == 0
  {
  }

  // ---- Conservation ----

  function Held(spaces: seq<Space>): nat {
    if spaces == [] then 0 else |spaces[0].contents| + Held(spaces[1..])
  }

  lemma {:induction false} HeldUpdate(spaces: seq<Space>, i: nat, s: Space)
    requires i < |spaces|
    ensures Held(spaces[i := s]) == Held(spaces) - |spaces[i].contents| + |s.contents|
    decreases |spaces|
  {
    if i > 0 {
      HeldUpdate(spaces[1..], i - 1, s);
      assert spaces[i := s][1..] == spaces[1..][i - 1 := s];
    } else {
      assert spaces[0 := s][1..] == spaces[1..];
    }
  }

  lemma BindCount(contents: map<Word, Capability>, h: Word, c: Capability)
    requires h !in contents
    ensures |contents[h := c]| == |contents| + 1
  {
  }

  lemma DropCount(contents: map<Word, Capability>, h: Word)
    requires h in contents
    ensures |contents - {h}| == |contents| - 1
  {
    OneFewer(contents, h);
  }

  lemma GrantCount(w: World, i: nat, j: nat, from: Word, cap: Option<Capability>, take: bool, h: Word, w': World)
    requires i < |w.spaces| && j < |w.spaces| && |w'.spaces| == |w.spaces|
    requires w' == World(w.spaces[i := w'.spaces[i]][j := w'.spaces[j]], w.epochs)
    requires GrantEffect(w.spaces[i], w.spaces[j], i == j, from, cap, take, h, w'.spaces[i], w'.spaces[j])
    requires cap.Some? ==> from in w.spaces[i].contents
    ensures Held(w'.spaces) == Held(w.spaces) + if h == INVALID_HANDLE || take then 0 else 1
    ensures h == INVALID_HANDLE ==>
              forall k | 0 <= k < |w.spaces| :: w'.spaces[k].contents == w.spaces[k].contents
  {
    hide Minted;
    var a, b := w.spaces[i], w.spaces[j];
    HeldUpdate(w.spaces, i, w'.spaces[i]);
    HeldUpdate(w.spaces[i := w'.spaces[i]], j, w'.spaces[j]);
    if h != INVALID_HANDLE {
      FreshHandle(b, cap.value, h, i == j, from, take, w'.spaces[j]);
      BindCount(b.contents, h, cap.value);
      DropCount(a.contents, from);
      if i == j {
        DropCount(b.contents[h := cap.value], from);
      }
    }
  }

  lemma FreshHandle(dst: Space, c: Capability, h: Word, same: bool, from: Word, take: bool, dst': Space)
    requires h != INVALID_HANDLE
    requires if same && take then exists mid :: Inserted(dst, c, h, mid) && dst' == Dropped(mid, from)
             else Inserted(dst, c, h, dst')
    ensures h !in dst.contents
  {
  }

  /**
   Conservation: a successful taking grant keeps the number of held capabilities, any other successful
   binding adds one, and a failed operation leaves every space's bindings as they were.
   */
  lemma StepCountsHeld(w: World, op: Op, h: Word, w': World)
    requires Step(w, op, h, w')
    ensures Held(w'.spaces) == Held(w.spaces)
                               + if h == INVALID_HANDLE || (op.GrantOp? && op.take) then 0 else 1
    ensures h == INVALID_HANDLE ==>
              forall k | 0 <= k < |w.spaces| :: w'.spaces[k].contents == w.spaces[k].contents
  {
    hide GrantEffect, Minted, Granted, Duplicated, Held;
    match op
    case MintOp(i, e, oid, rights, generation) =>
      HeldUpdate(w.spaces, i, w'.spaces[i]);
      if h != INVALID_HANDLE {
        var c := Capabilities.Mint(oid, rights, w.epochs[e], generation);
        FreshHandle(w.spaces[i], c, h, false, h, false, w'.spaces[i]);
        BindCount(w.spaces[i].contents, h, c);
      }
    case GrantOp(i, j, e, from, narrower, take) =>
      NarrowedFrom(w, op);
      GrantCount(w, i, j, from, Granted(w.spaces[i].contents, w.epochs[e], from, narrower), take, h, w');
    case DuplicateOp(i, j, from, narrower) =>
      NarrowedFrom(w, op);
      GrantCount(w, i, j, from, Duplicated(w.spaces[i].contents, from, narrower), false, h, w');
    case RevokeOp(_) =>
  }
}
