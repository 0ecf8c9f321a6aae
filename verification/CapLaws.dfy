/**
 What the capability operations promise in any run: which calls succeed and what they bind, and that handles
 are not issued again.
 */
module CapLaws {
  import opened Wrappers
  import opened Bytes
  import opened Capabilities
  import opened CapSpace
  import opened CapOps
  import opened CapRuns

  // ---- Handles ----

  /** The space in which an operation binds. */
  function Target(op: Op): nat
    requires !op.RevokeOp?
  {
    match op
    case MintOp(i, _, _, _, _) => i
    case GrantOp(_, j, _, _, _, _) => j
    case DuplicateOp(_, j, _, _) => j
  }

  /** The operation issued a handle of space `i`. */
  predicate Issues(op: Op, h: Word, i: nat) {
    h != INVALID_HANDLE && !op.RevokeOp? && Target(op) == i
  }

  /** How far a 64-bit counter went, going up. */
  function Distance(a: Word, b: Word): nat {
    Wrap(b - a)
  }

  /** How far the handle counter of space `i` goes over a run. */
  function Travelled(w: World, steps: seq<Taken>, i: nat): nat
    decreases |steps|
  {
    if steps == [] then 0
    else
      var w' := steps[0].after;
      (if i < |w.spaces| && i < |w'.spaces| then Distance(w.spaces[i].next, w'.spaces[i].next) else 0)
      + Travelled(w', steps[1..], i)
  }

  /** The handles of space `i` issued over a run, in order. */
  function Issued(steps: seq<Taken>, i: nat): seq<Word> {
    if steps == [] then []
    else (if Issues(steps[0].op, steps[0].handle, i) then [steps[0].handle] else []) + Issued(steps[1..], i)
  }

  lemma EffectAdvances(src: Space, dst: Space, same: bool, from: Word, cap: Option<Capability>, take: bool,
                       h: Word, src': Space, dst': Space)
    requires GrantEffect(src, dst, same, from, cap, take, h, src', dst') && h != INVALID_HANDLE
    ensures dst'.next == Wrap(h + 1) && dst'.next != dst.next
  {
    hide Minted;
    if same && take {
      var mid :| Inserted(dst, cap.value, h, mid) && dst' == Dropped(mid, from);
      MintedAdvances(dst.contents.Keys, dst.next, h, mid.next);
    } else {
      MintedAdvances(dst.contents.Keys, dst.next, h, dst'.next);
    }
  }

  /** A step that issues a handle moves the counter just past it. */
  lemma IssueAdvances(w: World, op: Op, h: Word, w': World, i: nat)
    requires Step(w, op, h, w') && Issues(op, h, i)
    ensures i < |w.spaces| == |w'.spaces|
    ensures w'.spaces[i].next == Wrap(h + 1) && w'.spaces[i].next != w.spaces[i].next
  {
    hide Minted, GrantEffect, Granted, Duplicated;
    match op
    case MintOp(_, _, _, _, _) => MintedAdvances(w.spaces[i].contents.Keys, w.spaces[i].next, h, w'.spaces[i].next);
    case GrantOp(k, j, e, from, narrower, take) =>
      EffectAdvances(w.spaces[k], w.spaces[j], k == j, from, Granted(w.spaces[k].contents, w.epochs[e], from, narrower),
        take, h, w'.spaces[k], w'.spaces[j]);
    case DuplicateOp(k, j, from, narrower) =>
      EffectAdvances(w.spaces[k], w.spaces[j], k == j, from, Duplicated(w.spaces[k].contents, from, narrower),
        false, h, w'.spaces[k], w'.spaces[j]);
  }

  lemma WrapSum(n: int, d: int)
    ensures Wrap(Wrap(n) + d) == Wrap(n + d)
  {
  }

  lemma DistanceReaches(a: Word, b: Word)
    ensures Wrap(a + Distance(a, b)) == b
    ensures Distance(a, b) == 0 <==> a == b
  {
  }

  lemma WrapWord(a: Word)
    ensures Wrap(a) == a
  {
  }

  lemma StepKeepsSpaces(w: World, op: Op, h: Word, w': World)
    requires Step(w, op, h, w')
    ensures InRange(w, op) && |w'.spaces| == |w.spaces|
  {
  }

  lemma {:induction false} CounterAfter(w: World, s: History, steps: seq<Taken>, w': World, s': History, i: nat)
    requires Run(w, s, steps, w', s') && i < |w.spaces|
    ensures |w'.spaces| == |w.spaces| && w'.spaces[i].next == Wrap(w.spaces[i].next + Travelled(w, steps, i))
    decreases |steps|
  {
    hide Record, Distance, Step, Wrap;
    if steps == [] {
      WrapWord(w.spaces[i].next);
    } else {
      var v := steps[0].after;
      StepKeepsSpaces(w, steps[0].op, steps[0].handle, v);
      CounterAfter(v, Record(s, w, steps[0].op, steps[0].handle), steps[1..], w', s', i);
      DistanceReaches(w.spaces[i].next, v.spaces[i].next);
      WrapSum(w.spaces[i].next + Distance(w.spaces[i].next, v.spaces[i].next), Travelled(v, steps[1..], i));
    }
  }

  lemma SameAfter(h: Word, d: int, h': Word)
    requires Wrap(h' + 1) == Wrap(Wrap(h + 1) + d)
    ensures h' == h <==> d % TWO_64 == 0
  {
  }

  /**
   Between two issues from one space the counter goes up, whatever is bound and unbound in between; the second
   handle is the first one again if and only if the counter has come round to it.
   */
  lemma ReissuedIff(w: World, s: History, op: Op, h: Word, v: World, mid: seq<Taken>, v': World, s': History,
                    op': Op, h': Word, w': World, i: nat)
    requires Step(w, op, h, v) && Issues(op, h, i)
    requires Run(v, s, mid, v', s')
    requires Step(v', op', h', w') && Issues(op', h', i)
    ensures i < |v.spaces| == |v'.spaces| == |w'.spaces|
    ensures var d := Travelled(v, mid, i) + Distance(v'.spaces[i].next, w'.spaces[i].next);
            d > 0 && (h' == h <==> d % TWO_64 == 0)
  {
    hide Step, Run, Distance;
    IssueAdvances(w, op, h, v, i);
    IssueAdvances(v', op', h', w', i);
    CounterAfter(v, s, mid, v', s', i);
    var t := Travelled(v, mid, i);
    var d := Distance(v'.spaces[i].next, w'.spaces[i].next);
    DistanceReaches(v'.spaces[i].next, w'.spaces[i].next);
    WrapSum(v.spaces[i].next + t, d);
    SameAfter(h, t + d, h');
  }

  predicate Ascending(hs: seq<Word>) {
    forall a, b | 0 <= a < b < |hs| :: hs[a] < hs[b]
  }

  lemma AscendingCons(h: Word, hs: seq<Word>)
    requires Ascending(hs) && forall g | g in hs :: h < g
    ensures Ascending([h] + hs)
  {
    forall a, b | 0 <= a < b < |[h] + hs| ensures ([h] + hs)[a] < ([h] + hs)[b] {
      assert hs[b - 1] in hs;
    }
  }

  lemma BelowCounter(h: Word, next: Word, next': Word)
    requires next' == Wrap(h + 1) && next' != next && next + Distance(next, next') < TWO_64
    ensures next <= h < next' == next + Distance(next, next')
  {
  }

  lemma DistanceUp(a: Word, b: Word)
    requires a + Distance(a, b) < TWO_64
    ensures b == a + Distance(a, b)
  {
  }

  lemma {:induction false} IssuedAscend(w: World, s: History, steps: seq<Taken>, w': World, s': History, i: nat)
    requires Run(w, s, steps, w', s') && i < |w.spaces|
    requires w.spaces[i].next + Travelled(w, steps, i) < TWO_64
    ensures Ascending(Issued(steps, i))
    ensures forall h | h in Issued(steps, i) :: w.spaces[i].next <= h
    decreases |steps|
  {
    hide Record, Distance, Ascending, Issues;
    if steps == [] {
      NoneAscend();
    } else {
      var (op, h, v) := (steps[0].op, steps[0].handle, steps[0].after);
      DistanceUp(w.spaces[i].next, v.spaces[i].next);
      IssuedAscend(v, Record(s, w, op, h), steps[1..], w', s', i);
      if Issues(op, h, i) {
        IssueAdvances(w, op, h, v, i);
        BelowCounter(h, w.spaces[i].next, v.spaces[i].next);
        AscendingCons(h, Issued(steps[1..], i));
      } else {
        assert Issued(steps, i) == Issued(steps[1..], i);
      }
    }
  }

  lemma NoneAscend()
    ensures Ascending([])
  {
  }

  /**
   While a space's counter has not wrapped, the handles it issues strictly increase: none is issued twice, even
   after it was erased or granted away.
   */
  lemma HandlesIncrease(spaces: nat, epochs: nat, steps: seq<Taken>, w: World, s: History, i: nat)
    requires Run(Start(spaces, epochs), StartHistory(spaces, epochs), steps, w, s) && i < spaces
    requires 1 + Travelled(Start(spaces, epochs), steps, i) < TWO_64
    ensures Ascending(Issued(steps, i))
  {
    IssuedAscend(Start(spaces, epochs), StartHistory(spaces, epochs), steps, w, s, i);
  }

  // ---- The gates of granting, duplicating and minting ----

  /** `c` itself when nothing is narrowed, else with exactly the rights asked for. */
  function Passed(c: Capability, narrower: bv16): Capability {
    if narrower == 0 then c else Capability(c.objectId, narrower, c.epoch, c.generation)
  }

  lemma NarrowedIs(c: Capability, narrower: bv16)
    ensures Narrowed(c, narrower) == if Includes(c.rights, narrower) then Some(Passed(c, narrower)) else None
  {
    hide Common, Includes;
    IncludesIs(c.rights, narrower);
    IncludesNone(c.rights);
  }

  lemma IncludesNone(held: bv16)
    ensures Includes(held, 0)
  {
  }

  lemma GrantedIs(contents: map<Word, Capability>, epoch: U16, h: Word, narrower: bv16)
    ensures Granted(contents, epoch, h, narrower)
            == if h in contents && contents[h].epoch == epoch && Includes(contents[h].rights, 8)
                  && Includes(contents[h].rights, narrower)
               then Some(Passed(contents[h], narrower)) else None
  {
    hide Narrowed, Passed, Includes, Common;
    if h in contents {
      IncludesIs(contents[h].rights, 8);
      NarrowedIs(contents[h], narrower);
    }
  }

  lemma DuplicatedIs(contents: map<Word, Capability>, h: Word, narrower: bv16)
    ensures Duplicated(contents, h, narrower)
            == if h in contents && Includes(contents[h].rights, narrower)
               then Some(Passed(contents[h], narrower)) else None
  {
    hide Narrowed, Passed, Includes;
    if h in contents {
      NarrowedIs(contents[h], narrower);
    }
  }

  /** A transfer succeeds exactly when there is a capability to pass on and room for it; then it binds that one. */
  lemma EffectIs(src: Space, dst: Space, same: bool, from: Word, cap: Option<Capability>, take: bool,
                 h: Word, src': Space, dst': Space)
    requires GrantEffect(src, dst, same, from, cap, take, h, src', dst') && (same ==> src == dst)
    requires cap.Some? ==> from in src.contents
    ensures h != INVALID_HANDLE <==> cap.Some? && HasRoom(dst.contents.Keys, dst.next)
    ensures h == INVALID_HANDLE ==> src'.contents == src.contents && dst'.contents == dst.contents
    ensures h != INVALID_HANDLE ==>
              h !in dst.contents
              && dst'.contents == dst.contents[h := cap.value] - (if same && take then {from} else {})
              && (!same ==> src'.contents == src.contents - (if take then {from} else {}))
  {
    hide Minted, HasRoom;
    if cap.Some? {
      if same && take && h != INVALID_HANDLE {
        var mid :| Inserted(dst, cap.value, h, mid) && dst' == Dropped(mid, from);
        MintSucceedsIff(dst.contents.Keys, dst.next, h, mid.next);
        MintedFresh(dst.contents.Keys, dst.next, h, mid.next);
      } else {
        MintSucceedsIff(dst.contents.Keys, dst.next, h, dst'.next);
        if h != INVALID_HANDLE {
          MintedFresh(dst.contents.Keys, dst.next, h, dst'.next);
        }
      }
    }
  }

  /** What a successful grant does to the two spaces, or the one. */
  predicate GrantBinds(src: Space, dst: Space, op: Op, h: Word, src': Space, dst': Space)
    requires op.GrantOp? && op.handle in src.contents
  {
    var c := src.contents[op.handle];
    var bound := dst.contents[h := if op.narrower == 0 then c else c.(rights := op.narrower)];
    h !in dst.contents
    && if op.src == op.dst then dst'.contents == bound - (if op.take then {op.handle} else {})
       else dst'.contents == bound && src'.contents == src.contents - (if op.take then {op.handle} else {})
  }

  /** One grant, with the epochs themselves. */
  lemma GrantStep(w: World, op: Op, h: Word, w': World)
    requires op.GrantOp? && Step(w, op, h, w')
    ensures InRange(w, op) && |w'.spaces| == |w.spaces|
    ensures var (src, dst) := (w.spaces[op.src], w.spaces[op.dst]);
            h != 0 <==>
              op.handle in src.contents
              && Includes(src.contents[op.handle].rights, 8)
              && Includes(src.contents[op.handle].rights, op.narrower)
              && src.contents[op.handle].epoch == w.epochs[op.epoch]
              && HasRoom(dst.contents.Keys, dst.next)
    ensures h != 0 ==> GrantBinds(w.spaces[op.src], w.spaces[op.dst], op, h, w'.spaces[op.src], w'.spaces[op.dst])
    ensures h == 0 ==> forall k | 0 <= k < |w.spaces| :: w'.spaces[k].contents == w.spaces[k].contents
  {
    hide GrantEffect, Granted, Minted, HasRoom, Includes;
    var (src, dst) := (w.spaces[op.src], w.spaces[op.dst]);
    var cap := Granted(src.contents, w.epochs[op.epoch], op.handle, op.narrower);
    GrantedIs(src.contents, w.epochs[op.epoch], op.handle, op.narrower);
    EffectIs(src, dst, op.src == op.dst, op.handle, cap, op.take, h, w'.spaces[op.src], w'.spaces[op.dst]);
  }

  /** A held capability's epoch is that of a space's epoch counter when the revoke counts agree. */
  lemma EpochIsCount(spaces: nat, epochs: nat, steps: seq<Taken>, w: World, s: History, i: nat, h: Word, e: nat)
    requires Run(Start(spaces, epochs), StartHistory(spaces, epochs), steps, w, s)
    requires i < |w.spaces| && e < |w.epochs| && h in w.spaces[i].contents
    ensures |s.revokes| == |w.epochs| && i < |s.origins| && h in s.origins[i] && s.origins[i][h] < |s.log|
    ensures w.spaces[i].contents[h].epoch == w.epochs[e]
            <==> s.log[s.origins[i][h]].revokes % EPOCHS == s.revokes[e] % EPOCHS
  {
    HeldCapabilitiesDescend(spaces, epochs, steps, w, s, i, h);
    RunKeepsSound(Start(spaces, epochs), StartHistory(spaces, epochs), steps, w, s);
    assert w.epochs[e] == s.revokes[e] % EPOCHS;
    assert s.log[s.origins[i][h]].cap.epoch == s.log[s.origins[i][h]].revokes % EPOCHS;
  }

  /**
   A grant succeeds if and only if the handle is bound, its capability holds the Grant right (bit 3) and every
   right asked for, its epoch has been revoked as often, modulo 2^16, as when it was minted, and the destination
   has room. It then binds the capability unchanged, or with exactly the rights asked for, under a fresh handle,
   and takes away the source binding if it was to be taken. Otherwise no binding changes.
   */
  lemma GrantSucceedsIff(spaces: nat, epochs: nat, steps: seq<Taken>, w: World, s: History, op: Op, h: Word, w': World)
    requires Run(Start(spaces, epochs), StartHistory(spaces, epochs), steps, w, s)
    requires op.GrantOp? && Step(w, op, h, w')
    ensures InRange(w, op) && |w'.spaces| == |w.spaces|
    ensures |s.origins| == |w.spaces| && |s.revokes| == |w.epochs|
    ensures var (src, dst) := (w.spaces[op.src], w.spaces[op.dst]);
            h != 0 <==>
              op.handle in src.contents
              && op.handle in s.origins[op.src] && s.origins[op.src][op.handle] < |s.log|
              && Includes(src.contents[op.handle].rights, 8)
              && Includes(src.contents[op.handle].rights, op.narrower)
              && s.log[s.origins[op.src][op.handle]].revokes % EPOCHS == s.revokes[op.epoch] % EPOCHS
              && HasRoom(dst.contents.Keys, dst.next)
    ensures h != 0 ==> GrantBinds(w.spaces[op.src], w.spaces[op.dst], op, h, w'.spaces[op.src], w'.spaces[op.dst])
    ensures h == 0 ==> forall k | 0 <= k < |w.spaces| :: w'.spaces[k].contents == w.spaces[k].contents
  {
    hide Step, HasRoom, Run, Includes, GrantBinds;
    RunKeepsSound(Start(spaces, epochs), StartHistory(spaces, epochs), steps, w, s);
    GrantStep(w, op, h, w');
    if op.handle in w.spaces[op.src].contents {
      EpochIsCount(spaces, epochs, steps, w, s, op.src, op.handle, op.epoch);
    }
  }

  /** A duplicate asks for neither the Grant right nor a current epoch, and takes nothing away. */
  lemma DuplicateSucceedsIff(w: World, op: Op, h: Word, w': World)
    requires op.DuplicateOp? && Step(w, op, h, w')
    ensures var (src, dst) := (w.spaces[op.src], w.spaces[op.dst]);
            h != 0 <==> op.handle in src.contents
                        && Includes(src.contents[op.handle].rights, op.narrower)
                        && HasRoom(dst.contents.Keys, dst.next)
    ensures h != 0 ==>
              var c := w.spaces[op.src].contents[op.handle];
              h !in w.spaces[op.dst].contents
              && w'.spaces[op.dst].contents
                 == w.spaces[op.dst].contents[h := if op.narrower == 0 then c else c.(rights := op.narrower)]
              && (op.src != op.dst ==> w'.spaces[op.src].contents == w.spaces[op.src].contents)
  {
    hide GrantEffect, Duplicated, Minted, HasRoom, Includes;
    var (src, dst) := (w.spaces[op.src], w.spaces[op.dst]);
    DuplicatedIs(src.contents, op.handle, op.narrower);
    EffectIs(src, dst, op.src == op.dst, op.handle, Duplicated(src.contents, op.handle, op.narrower), false, h,
      w'.spaces[op.src], w'.spaces[op.dst]);
  }

  /** Minting succeeds exactly when there is room, and binds the four fields, cut to 48 bits where they are wider. */
  lemma MintSucceeds(w: World, op: Op, h: Word, w': World)
    requires op.MintOp? && Step(w, op, h, w')
    ensures var space := w.spaces[op.space];
            h != 0 <==> HasRoom(space.contents.Keys, space.next)
    ensures h != 0 ==>
              var was := w.spaces[op.space].contents;
              h !in was
              && w'.spaces[op.space].contents
                 == was[h := Capability(op.oid % 0x1_0000_0000_0000, op.rights, w.epochs[op.epoch],
                                        op.generation % 0x1_0000_0000_0000)]
  {
    hide Minted, HasRoom;
    var space := w.spaces[op.space];
    MintSucceedsIff(space.contents.Keys, space.next, h, w'.spaces[op.space].next);
    if h != 0 {
      MintedFresh(space.contents.Keys, space.next, h, w'.spaces[op.space].next);
    }
  }
}
