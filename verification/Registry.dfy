/** The device list (drivers/device.c) and the query over it (src/cl_device.c). */
module Registry {
  import opened Codes

  class Node {
    var devNext: Node?
    const devType: bv64
    var enabled: bool

    /** A device as `dev_alloc` leaves it. */
    constructor (devType: bv64)
      ensures devNext == null && this.devType == devType && !enabled
    {
      devNext := null;
      this.devType := devType;
      enabled := false;
    }
  }

  predicate HasType(n: Node, typ: bv64) {
    n.devType & typ != 0
  }

  predicate Odd(x: bv64) {
    x & 1 == 1
  }

  function Halved(x: bv64): bv64 {
    x >> 1
  }

  /** Bit `i` of a word. */
  predicate Bit(x: bv64, i: nat)
    decreases i
  {
    if i == 0 then Odd(x) else Bit(Halved(x), i - 1)
  }

  /** Two words have a bit in common. */
  ghost predicate Share(x: bv64, y: bv64) {
    exists i: nat :: Bit(x, i) && Bit(y, i)
  }

  function Both(x: bv64, y: bv64): bv64 {
    x & y
  }

  lemma BothStep(x: bv64, y: bv64)
    ensures Odd(Both(x, y)) <==> Odd(x) && Odd(y)
    ensures Halved(Both(x, y)) == Both(Halved(x), Halved(y))
  {
  }

  lemma HalvedSmaller(x: bv64)
    ensures x != 0 && !Odd(x) ==> 0 < Halved(x) < x
    ensures !Odd(0) && Halved(0) == 0
  {
  }

  /** The test of the query is whether the type of the device and the type asked for have a bit in common. */
  lemma TypesShare(n: Node, typ: bv64)
    ensures HasType(n, typ) <==> Share(n.devType, typ)
  {
    var x, y := n.devType, typ;
    HasTypeBoth(n, typ);
    hide Bit, Both, HasType, Level;
    if Both(x, y) != 0 {
      SomeBit(Both(x, y));
      BitOfBoth(x, y, Level(Both(x, y)));
    } else if i: nat :| Bit(x, i) && Bit(y, i) {
      BitOfBoth(x, y, i);
      NoBit(i);
    }
  }

  lemma HasTypeBoth(n: Node, typ: bv64)
    ensures HasType(n, typ) <==> Both(n.devType, typ) != 0
  {
  }

  /** CL_DEVICE_TYPE_ALL finds every type that has 32 bits. */
  lemma AllTypes(n: Node)
    requires 0 < n.devType < 0x1_0000_0000
    ensures Share(n.devType, 0xFFFF_FFFF)
  {
    TypesShare(n, 0xFFFF_FFFF);
    hide Share;
  }

  lemma {:induction false} BitOfBoth(x: bv64, y: bv64, i: nat)
    ensures Bit(Both(x, y), i) <==> Bit(x, i) && Bit(y, i)
    decreases i
  {
    hide Both, Halved, Odd;
    BothStep(x, y);
    if i > 0 {
      BitOfBoth(Halved(x), Halved(y), i - 1);
    }
  }

  /** How many zeros a word ends in. */
  function Level(x: bv64): nat
    decreases x
  {
    HalvedSmaller(x);
    if x == 0 || Odd(x) then 0 else 1 + Level(Halved(x))
  }

  lemma {:induction false} SomeBit(x: bv64)
    requires x != 0
    ensures Bit(x, Level(x))
    decreases Level(x)
  {
    hide Halved, Odd;
    HalvedSmaller(x);
    if !Odd(x) {
      SomeBit(Halved(x));
    }
  }

  lemma {:induction false} NoBit(i: nat)
    ensures !Bit(0, i)
    decreases i
  {
    hide Halved, Odd;
    HalvedSmaller(0);
    if i > 0 {
      NoBit(i - 1);
    }
  }

  /** Positions `idx` of the list, in order, are those of the enabled devices of the type; if there are more than `room`,
      of the first ones. */
  ghost predicate Chosen(nodes: seq<Node>, on: set<Node>, typ: bv64, room: nat, idx: seq<nat>) {
    && |idx| <= room && Rising(nodes, idx)
    && (forall j :: 0 <= j < |idx| ==> Wanted(nodes[idx[j]], on, typ))
    && (forall k :: 0 <= k < |nodes| && Wanted(nodes[k], on, typ) ==>
          k in idx || (|idx| == room && forall j :: 0 <= j < |idx| ==> idx[j] < k))
  }

  ghost predicate Wanted(n: Node, on: set<Node>, typ: bv64) {
    n in on && Share(n.devType, typ)
  }

  ghost predicate Rising(nodes: seq<Node>, idx: seq<nat>) {
    && (forall j :: 0 <= j < |idx| ==> idx[j] < |nodes|)
    && (forall i, j :: 0 <= i < j < |idx| ==> idx[i] < idx[j])
  }

  /** The devices at these positions. */
  function Picked(nodes: seq<Node>, idx: seq<nat>): (p: seq<Node>)
    requires forall j :: 0 <= j < |idx| ==> idx[j] < |nodes|
    ensures |p| == |idx| && forall j :: 0 <= j < |p| ==> p[j] == nodes[idx[j]]
  {
    seq(|idx|, j requires 0 <= j < |idx| => nodes[idx[j]])
  }

  /** Positions of all of them. */
  ghost predicate AllWanted(nodes: seq<Node>, on: set<Node>, typ: bv64, idx: seq<nat>) {
    Rising(nodes, idx) && forall k :: 0 <= k < |nodes| ==> (k in idx <==> Wanted(nodes[k], on, typ))
  }

  lemma {:induction false} MatchesChosen(nodes: seq<Node>, on: set<Node>, typ: bv64) returns (idx: seq<nat>)
    ensures AllWanted(nodes, on, typ, idx) && Matches(nodes, on, typ) == Picked(nodes, idx)
  {
    hide HasType, Wanted;
    idx := [];
    if nodes != [] {
      var n := |nodes| - 1;
      idx := MatchesChosen(nodes[..n], on, typ);
      WantedIs(nodes[n], on, typ);
      if HasType(nodes[n], typ) && nodes[n] in on {
        idx := idx + [n];
      }
    }
  }

  lemma WantedIs(n: Node, on: set<Node>, typ: bv64)
    ensures Wanted(n, on, typ) <==> HasType(n, typ) && n in on
  {
    hide HasType, Share;
    TypesShare(n, typ);
  }

  lemma ChosenFirst(nodes: seq<Node>, on: set<Node>, typ: bv64, room: nat, idx: seq<nat>)
    requires AllWanted(nodes, on, typ, idx)
    ensures Chosen(nodes, on, typ, room, if room < |idx| then idx[..room] else idx)
  {
    hide Wanted;
    if room < |idx| {
      var first := idx[..room];
      forall k | 0 <= k < |nodes| && Wanted(nodes[k], on, typ)
        ensures k in first || forall j :: 0 <= j < room ==> first[j] < k
      {
        var l :| 0 <= l < |idx| && idx[l] == k;
        assert l < room ==> first[l] == k;
      }
    }
  }

  ghost function Enabled(nodes: seq<Node>): set<Node>
    reads nodes
  {
    set n | n in nodes && n.enabled
  }

  /** The devices of a type among the enabled ones `on`, in list order. */
  function Matches(nodes: seq<Node>, on: set<Node>, typ: bv64): (m: seq<Node>)
    ensures |m| <= |nodes|
  {
    if nodes == [] then []
    else
      var n := nodes[|nodes| - 1];
      Matches(nodes[..|nodes| - 1], on, typ) + if HasType(n, typ) && n in on then [n] else []
  }

  lemma MatchesNone(nodes: seq<Node>, on: set<Node>, typ: bv64)
    ensures Matches(nodes[..0], on, typ) == []
  {
  }

  lemma MatchesNext(nodes: seq<Node>, on: set<Node>, i: nat, typ: bv64)
    requires i < |nodes|
    ensures Matches(nodes[..i + 1], on, typ) ==
      Matches(nodes[..i], on, typ) + if HasType(nodes[i], typ) && nodes[i] in on then [nodes[i]] else []
  {
    hide HasType;
    assert nodes[..i + 1][..i] == nodes[..i];
  }

  /** A query that stops early has found a prefix of all matches. */
  lemma {:induction false} MatchesPrefix(nodes: seq<Node>, on: set<Node>, i: nat, typ: bv64)
    requires i <= |nodes|
    ensures Matches(nodes[..i], on, typ) <= Matches(nodes, on, typ)
    decreases |nodes| - i
  {
    hide Matches;
    if i < |nodes| {
      MatchesNext(nodes, on, i, typ);
      MatchesPrefix(nodes, on, i + 1, typ);
    } else {
      assert nodes[..i] == nodes;
    }
  }

  ghost predicate NoneTyped(nodes: seq<Node>, typ: bv64) {
    forall i :: 0 <= i < |nodes| ==> !HasType(nodes[i], typ)
  }

  /** The first device of a type, if it is enabled. */
  function FirstTyped(nodes: seq<Node>, on: set<Node>, typ: bv64): (f: seq<Node>)
    ensures |f| <= 1
  {
    if nodes == [] then []
    else if HasType(nodes[0], typ) then (if nodes[0] in on then [nodes[0]] else [])
    else FirstTyped(nodes[1..], on, typ)
  }

  lemma {:induction false} FirstTypedAt(nodes: seq<Node>, on: set<Node>, typ: bv64, i: nat)
    requires i <= |nodes| && NoneTyped(nodes[..i], typ) && (i < |nodes| ==> HasType(nodes[i], typ))
    ensures FirstTyped(nodes, on, typ) == if i < |nodes| && nodes[i] in on then [nodes[i]] else []
  {
    hide HasType;
    if i > 0 {
      assert nodes[..i][0] == nodes[0];
      assert nodes[1..][..i - 1] == nodes[..i][1..];
      FirstTypedAt(nodes[1..], on, typ, i - 1);
    }
  }

  /** What a query writes. A capacity of zero is only looked at after the first device of the type. */
  function Answered(nodes: seq<Node>, on: set<Node>, typ: bv64, bounded: bool, sz: nat): (found: seq<Node>)
    ensures bounded ==> |found| <= if sz == 0 then 1 else sz
  {
    var all := Matches(nodes, on, typ);
    if bounded && sz == 0 then FirstTyped(nodes, on, typ)
    else if bounded && sz < |all| then all[..sz]
    else all
  }

  /** With no room at all it is the first device of the type, if that is enabled. */
  ghost predicate FirstChosen(nodes: seq<Node>, on: set<Node>, typ: bv64, idx: seq<nat>) {
    && ((forall k :: 0 <= k < |nodes| ==> !Share(nodes[k].devType, typ)) ==> idx == [])
    && forall k :: 0 <= k < |nodes| && Share(nodes[k].devType, typ)
                   && (forall j :: 0 <= j < k ==> !Share(nodes[j].devType, typ)) ==>
         idx == if nodes[k] in on then [k] else []
  }

  ghost predicate AnswerChosen(nodes: seq<Node>, on: set<Node>, typ: bv64, bounded: bool, sz: nat, idx: seq<nat>) {
    if bounded && sz == 0 then FirstChosen(nodes, on, typ, idx)
    else Chosen(nodes, on, typ, if bounded then sz else |nodes|, idx)
  }

  lemma AnsweredChosen(nodes: seq<Node>, on: set<Node>, typ: bv64, bounded: bool, sz: nat) returns (idx: seq<nat>)
    ensures AnswerChosen(nodes, on, typ, bounded, sz, idx) && Rising(nodes, idx)
    ensures forall j :: 0 <= j < |idx| ==> idx[j] < |nodes|
    ensures Answered(nodes, on, typ, bounded, sz) == Picked(nodes, idx)
  {
    hide Wanted, Share, Matches, FirstTyped, FirstChosen;
    if bounded && sz == 0 {
      idx := FirstTypedChosen(nodes, on, typ);
    } else {
      var room := if bounded then sz else |nodes|;
      idx := MatchesChosen(nodes, on, typ);
      ChosenFirst(nodes, on, typ, room, idx);
      idx := if room < |idx| then idx[..room] else idx;
    }
  }

  lemma SomeChosen(nodes: seq<Node>, on: set<Node>, typ: bv64, room: nat, idx: seq<nat>)
    requires room > 0 || nodes == []
    requires Chosen(nodes, on, typ, room, idx)
    ensures idx == [] <==> forall k :: 0 <= k < |nodes| ==> !Wanted(nodes[k], on, typ)
  {
    hide Wanted;
    assert idx != [] ==> Wanted(nodes[idx[0]], on, typ);
  }

  lemma FirstTypedChosen(nodes: seq<Node>, on: set<Node>, typ: bv64) returns (idx: seq<nat>)
    ensures Rising(nodes, idx) && FirstChosen(nodes, on, typ, idx) && FirstTyped(nodes, on, typ) == Picked(nodes, idx)
  {
    hide HasType, Share, FirstTyped;
    forall k | 0 <= k < |nodes|
      ensures HasType(nodes[k], typ) <==> Share(nodes[k].devType, typ)
    {
      TypesShare(nodes[k], typ);
    }
    var i := 0;
    while i < |nodes| && !HasType(nodes[i], typ)
      invariant 0 <= i <= |nodes| && NoneTyped(nodes[..i], typ)
    {
      i := i + 1;
    }
    FirstTypedAt(nodes, on, typ, i);
    idx := if i < |nodes| && nodes[i] in on then [i] else [];
  }

  lemma AnsweredIs(nodes: seq<Node>, on: set<Node>, typ: bv64, i: nat, found: seq<Node>, bounded: bool, sz: nat)
    requires i <= |nodes|
    requires
      if bounded && sz == 0 then found == FirstTyped(nodes, on, typ)
      else
        && found == Matches(nodes[..i], on, typ) && (i == |nodes| || (bounded && |found| == sz))
        && (bounded ==> |found| <= sz)
    ensures found == Answered(nodes, on, typ, bounded, sz)
  {
    hide Matches, FirstTyped;
    MatchesPrefix(nodes, on, i, typ);
    assert nodes[..|nodes|] == nodes;
  }

  function Without<T>(nodes: seq<T>, k: nat): (w: seq<T>)
    requires k < |nodes|
    ensures |w| == |nodes| - 1
    ensures forall j :: 0 <= j < |w| ==> w[j] == nodes[if j < k then j else j + 1]
  {
    nodes[..k] + nodes[k + 1..]
  }

  ghost predicate Distinct(chain: seq<Node>) {
    forall i, j :: 0 <= i < j < |chain| ==> chain[i] != chain[j]
  }

  /** The links of the nodes of a chain. */
  ghost function Nexts(chain: seq<Node>): (ns: seq<Node?>)
    reads chain
    ensures |ns| == |chain| && forall i :: 0 <= i < |ns| ==> ns[i] == chain[i].devNext
  {
    seq(|chain|, i requires 0 <= i < |chain| reads chain => chain[i].devNext)
  }

  /** Each link is the next node of the chain, the last one is `last`. */
  ghost predicate Follows(nexts: seq<Node?>, chain: seq<Node>, last: Node?) {
    && |nexts| == |chain|
    && forall i {:trigger nexts[i]} :: 0 <= i < |chain| ==> nexts[i] == if i + 1 < |chain| then chain[i + 1] else last
  }

  /** Following `devNext` from the first node visits the chain in order and ends in `last`. */
  ghost predicate Links(chain: seq<Node>, last: Node?)
    reads chain
  {
    forall i {:trigger chain[i].devNext} :: 0 <= i < |chain| ==> chain[i].devNext == if i + 1 < |chain| then chain[i + 1] else last
  }

  lemma LinksAre(chain: seq<Node>, last: Node?)
    ensures Links(chain, last) <==> Follows(Nexts(chain), chain, last)
  {
    var nexts := Nexts(chain);
    if Follows(nexts, chain, last) {
      forall i | 0 <= i < |chain|
        ensures chain[i].devNext == if i + 1 < |chain| then chain[i + 1] else last
      {
        assert nexts[i] == chain[i].devNext;
      }
    }
  }

  lemma DistinctWithout(chain: seq<Node>, k: nat)
    requires k < |chain| && Distinct(chain)
    ensures Distinct(Without(chain, k)) && chain[k] !in Without(chain, k)
  {
  }

  lemma OnlyAt(chain: seq<Node>, k: nat)
    requires k < |chain| && Distinct(chain)
    ensures forall i :: 0 <= i < |chain| && i != k ==> chain[i] != chain[k]
  {
  }

  lemma LastOnly(chain: seq<Node>)
    requires chain != [] && Distinct(chain)
    ensures forall i :: 0 <= i < |chain| - 1 ==> chain[i] != chain[|chain| - 1]
  {
  }

  lemma AddedDistinct(chain: seq<Node>, dev: Node)
    requires Distinct(chain) && dev !in chain
    ensures Distinct(chain + [dev])
  {
  }

  /** The last link is redirected to a new device. */
  lemma FollowsAppended(nexts: seq<Node?>, chain: seq<Node>, dev: Node, last: Node?)
    requires chain != [] && Follows(nexts, chain, null)
    ensures Follows(nexts[|nexts| - 1 := dev] + [last], chain + [dev], last)
  {
  }

  /** The link in front of position `k` is redirected past it. */
  lemma FollowsBypassed(nexts: seq<Node?>, chain: seq<Node>, k: nat)
    requires 0 < k < |chain| && Follows(nexts, chain, null)
    ensures Follows(Without(nexts[k - 1 := nexts[k]], k), Without(chain, k), null)
  {
  }

  /** One call of `dev_add` or `dev_remove`, with the callback of the device and its result. */
  datatype Edit =
    | Add(dev: Node, hasCall: bool, result: int)
    | Remove(dev: Node, hasCall: bool, result: int)

  function Drop(nodes: seq<Node>, dev: Node): seq<Node> {
    if nodes == [] then [] else if nodes[0] == dev then nodes[1..] else [nodes[0]] + Drop(nodes[1..], dev)
  }

  function Edited(nodes: seq<Node>, e: Edit): seq<Node> {
    match e
    case Add(dev, _, _) => if dev in nodes then nodes else nodes + [dev]
    case Remove(dev, _, _) => Drop(nodes, dev)
  }

  /** The list after a sequence of edits: insertion order, without the removed devices. */
  function EditedBy(nodes: seq<Node>, edits: seq<Edit>): seq<Node> {
    if edits == [] then nodes
    else Edited(EditedBy(nodes, edits[..|edits| - 1]), edits[|edits| - 1])
  }

  lemma EditedByNext(nodes: seq<Node>, edits: seq<Edit>, i: nat)
    requires i < |edits|
    ensures EditedBy(nodes, edits[..i + 1]) == Edited(EditedBy(nodes, edits[..i]), edits[i])
  {
    assert edits[..i + 1][..i] == edits[..i];
  }

  lemma {:induction false} DropWithout(nodes: seq<Node>, k: nat)
    requires k < |nodes| && forall j :: 0 <= j < k ==> nodes[j] != nodes[k]
    ensures Drop(nodes, nodes[k]) == Without(nodes, k)
  {
    if k > 0 {
      var rest := nodes[1..];
      assert Drop(rest, nodes[k]) == Without(rest, k - 1) by {
        assert rest[k - 1] == nodes[k];
        DropWithout(rest, k - 1);
      }
      assert nodes[0] != nodes[k];
      WithoutCons(nodes, k);
    }
  }

  lemma WithoutCons(nodes: seq<Node>, k: nat)
    requires 0 < k < |nodes|
    ensures Without(nodes, k) == [nodes[0]] + Without(nodes[1..], k - 1)
  {
  }

  lemma {:induction false} DropAbsent(nodes: seq<Node>, dev: Node)
    requires dev !in nodes
    ensures Drop(nodes, dev) == nodes
  {
    if nodes != [] {
      DropAbsent(nodes[1..], dev);
    }
  }

  function DevicesOf(edits: seq<Edit>): set<Node> {
    set e | e in edits :: e.dev
  }

  /** An array that held `was`, with `found` written to its front. */
  function Filled(was: seq<Node?>, found: seq<Node>): (now: seq<Node?>)
    requires |found| <= |was|
    ensures |now| == |was|
    ensures forall j :: 0 <= j < |now| ==> now[j] == if j < |found| then found[j] else was[j]
  {
    found + was[|found|..]
  }

  lemma FilledNone(was: seq<Node?>)
    ensures Filled(was, []) == was
  {
  }

  lemma NoneYet(nodes: seq<Node>, typ: bv64)
    ensures NoneTyped(nodes[..0], typ)
  {
  }

  lemma NoneNext(nodes: seq<Node>, typ: bv64, i: nat)
    requires i < |nodes| && !HasType(nodes[i], typ)
    ensures NoneTyped(nodes[..i], typ) ==> NoneTyped(nodes[..i + 1], typ)
  {
    hide HasType;
  }

  lemma FilledNext(was: seq<Node?>, found: seq<Node>, dev: Node)
    requires |found| < |was|
    ensures Filled(was, found)[|found| := dev] == Filled(was, found + [dev])
  {
  }

  /** No device is added again after it was removed. */
  ghost predicate OneLife(edits: seq<Edit>) {
    forall i, j :: 0 <= i < j < |edits| && edits[i].Remove? && edits[j].Add? ==> edits[i].dev != edits[j].dev
  }

  class Registry {
    const head: Node
    var devNum: int
    ghost var nodes: seq<Node>

    /** The links from the head run through `nodes` in order, without repetition, and end in `last`. */
    ghost predicate Linked(last: Node?)
      reads this, head, nodes
    {
      Distinct([head] + nodes) && Links([head] + nodes, last)
    }

    ghost predicate Valid()
      reads this, head, nodes
    {
      Linked(null) && devNum == |nodes|
    }

    constructor ()
      ensures Valid() && nodes == [] && fresh(head)
    {
      head := new Node(0);
      devNum := 0;
      nodes := [];
    }

    /** The walk at the head of `dev_add` and `dev_remove`: `d` is the device itself, with `prev` in front of
        it, or the last node of the list. */
    method Search(dev: Node) returns (found: bool, prev: Node, d: Node, ghost i: nat)
      requires Valid() && dev != head
      ensures found <==> dev in nodes
      ensures if found then d == dev && prev.devNext == dev else d.devNext == null
      ensures i <= |nodes| && d == ([head] + nodes)[i]
      ensures found ==> i > 0 && d == dev && prev == ([head] + nodes)[i - 1]
      ensures !found ==> i == |nodes| && dev !in nodes
    {
      hide Distinct, Nexts;
      ghost var chain := [head] + nodes;
      assert Links(chain, null);
      d, prev, i := head, head, 0;
      while d.devNext != null
        invariant 0 <= i <= |nodes| && d == chain[i]
        invariant dev !in chain[..i + 1]
        decreases |nodes| - i
      {
        prev := d;
        assert chain[i].devNext == if i + 1 < |chain| then chain[i + 1] else null;
        d := d.devNext;
        i := i + 1;
        if d == dev {
          assert dev == nodes[i - 1];
          return true, prev, d, i;
        }
        assert chain[..i + 1] == chain[..i] + [d];
      }
      assert chain[..i + 1] == chain && forall n :: n in nodes ==> n in chain;
      return false, prev, d, i;
    }

    /** `dev_add`, with the result of the probe callback if there is one. A probe that fails disables the
        device but does not keep it out of the list. The list stays a list exactly when the device comes with
        a null link, as `dev_alloc` leaves it; a device that was removed from the middle does not. */
    method Add(dev: Node, hasProbe: bool, probe: int) returns (r: int)
      requires Valid() && dev != head
      modifies this, head, nodes, dev
      ensures dev in old(nodes) ==> r == CL_INVALID_VALUE && Valid() && nodes == old(nodes) && dev.enabled == old(dev.enabled)
      ensures dev !in old(nodes) ==>
        && r == CL_SUCCESS && nodes == old(nodes) + [dev] && devNum == |nodes|
        && dev.enabled == (!hasProbe || probe == CL_SUCCESS)
        && Linked(old(dev.devNext))
        && (Valid() <==> old(dev.devNext) == null)
      ensures forall n :: n in old(nodes) && n != dev ==> n.enabled == old(n.enabled)
    {
      hide Distinct, Nexts;
      var found, prev, d;
      ghost var i;
      ghost var chain := [head] + nodes;
      ghost var nexts := Nexts(chain);
      found, prev, d, i := Search(dev);
      if found {
        assert chain[i] == nodes[i - 1];
        return CL_INVALID_VALUE;
      }
      AddedDistinct(chain, dev);
      LinksAre(chain, null);
      dev.enabled := true;
      if hasProbe {
        r := probe;
        if r != CL_SUCCESS {
          dev.enabled := false;
        }
      }
      d.devNext := dev;
      devNum := devNum + 1;
      nodes := nodes + [dev];
      assert [head] + nodes == chain + [dev];
      FollowsAppended(nexts, chain, dev, dev.devNext);
      LastOnly(chain);
      assert (chain + [dev])[|chain|] == dev;
      assert Nexts(chain + [dev]) == nexts[|nexts| - 1 := dev] + [dev.devNext];
      LinksAre(chain + [dev], dev.devNext);
      return CL_SUCCESS;
    }

    /** `dev_remove`, with the result of the remove callback if there is one. The others keep their order; the
        removed device, at position `k`, keeps its link. */
    method Remove(dev: Node, hasRemove: bool, remove: int) returns (r: int, ghost k: nat)
      requires Valid() && dev != head
      modifies this, head, nodes
      ensures Valid() && dev.devNext == old(dev.devNext)
      ensures dev !in old(nodes) ==> r == CL_INVALID_VALUE && nodes == old(nodes)
      ensures dev in old(nodes) ==>
        && r == (if hasRemove then remove else CL_SUCCESS)
        && !dev.enabled
        && k < |old(nodes)| && old(nodes)[k] == dev && nodes == Without(old(nodes), k)
      ensures forall n :: n in old(nodes) && n != dev ==> n.enabled == old(n.enabled)
    {
      hide Distinct, Nexts, Links, Follows;
      var found, prev, d;
      ghost var i;
      ghost var chain := [head] + nodes;
      ghost var nexts := Nexts(chain);
      found, prev, d, i := Search(dev);
      if !found {
        return CL_INVALID_VALUE, 0;
      }
      k := i - 1;
      assert chain[i] == nodes[k];
      LinksAre(chain, null);
      assert nexts[i] == dev.devNext;
      r := CL_SUCCESS;
      if hasRemove {
        r := remove;
      }
      dev.enabled := false;
      prev.devNext := dev.devNext;
      devNum := devNum - 1;
      nodes := Without(nodes, k);
      assert [head] + nodes == Without(chain, i);
      FollowsBypassed(nexts, chain, i);
      DistinctWithout(chain, i);
      OnlyAt(chain, i - 1);
      assert Nexts(Without(chain, i)) == Without(nexts[i - 1 := nexts[i]], i);
      LinksAre(Without(chain, i), null);
    }

    /** Every sequence of additions and removals of devices fresh from `dev_alloc`, whatever the callbacks
        return, keeps the list acyclic, free of repetitions and counted by `in_dev_num`. */
    method Replay(edits: seq<Edit>)
      requires Valid() && OneLife(edits)
      requires forall e :: e in edits ==> e.dev != head && (e.dev !in nodes ==> e.dev.devNext == null)
      modifies this, head, nodes, DevicesOf(edits)
      ensures Valid() && nodes == EditedBy(old(nodes), edits)
    {
      hide Distinct, Linked, Drop, Matches, Nexts;
      var i := 0;
      while i < |edits|
        invariant i <= |edits| && Valid() && nodes == EditedBy(old(nodes), edits[..i])
        invariant Pending(edits, i)
        invariant forall n :: n in nodes ==> n in old(nodes) || n in DevicesOf(edits)
      {
        EditedByNext(old(nodes), edits, i);
        assert edits[i] in edits && edits[i].dev in DevicesOf(edits);
        Apply(edits, i);
        i := i + 1;
      }
      assert edits[..i] == edits;
    }

    /** What is still to be added is linked in or has no link. */
    ghost predicate Pending(edits: seq<Edit>, i: nat)
      reads this, DevicesOf(edits)
    {
      forall j :: i <= j < |edits| ==>
        && edits[j].dev != head
        && (edits[j].Add? ==> edits[j].dev in nodes || edits[j].dev.devNext == null)
    }

    lemma NoRepeats()
      requires Valid()
      ensures forall i, j :: 0 <= i < j < |nodes| ==> nodes[i] != nodes[j]
    {
      hide Links, Nexts;
      forall i, j | 0 <= i < j < |nodes| ensures nodes[i] != nodes[j] {
        assert ([head] + nodes)[i + 1] == nodes[i] && ([head] + nodes)[j + 1] == nodes[j];
      }
    }

    method Apply(edits: seq<Edit>, i: nat)
      requires i < |edits| && Valid() && OneLife(edits) && Pending(edits, i)
      modifies this, head, nodes, edits[i].dev
      ensures Valid() && nodes == Edited(old(nodes), edits[i]) && Pending(edits, i + 1)
      ensures forall n :: n in nodes ==> n in old(nodes) || n == edits[i].dev
    {
      hide Linked, Matches, Nexts;
      var e := edits[i];
      match e
      case Add(dev, hasProbe, probe) =>
        assert dev in nodes || dev.devNext == null;
        var _ := Add(dev, hasProbe, probe);
      case Remove(dev, hasRemove, remove) =>
        ghost var before := nodes;
        NoRepeats();
        var r;
        ghost var k;
        r, k := Remove(dev, hasRemove, remove);
        if dev in before {
          DropWithout(before, k);
        } else {
          DropAbsent(before, dev);
        }
    }

    /** A device that was removed from the middle and is added again takes its old link along: from the last node the
        links go round to the one before it, for ever. */
    method AddedAgain(a: Node, b: Node)
      requires Valid() && nodes == [] && a != b && a != head && b != head && a.devNext == null && b.devNext == null
      modifies this, head, a, b
      ensures nodes == [b, a] && Linked(b) && !Valid()
    {
      hide Distinct, Linked;
      var r := Add(a, false, 0);
      r := Add(b, false, 0);
      AtFront(a, b);
      ghost var k;
      r, k := Remove(a, false, 0);
      r := Add(a, false, 0);
    }

    lemma AtFront(a: Node, b: Node)
      requires Valid() && nodes == [a, b]
      ensures a.devNext == b
    {
      assert ([head] + nodes)[1] == a && ([head] + nodes)[2] == b;
      assert ([head] + nodes)[1].devNext == b;
    }

    /** `dev_get_devices`. With an array, `sz` is its capacity and the search stops when it is full; a capacity of
        zero still lets one device through. */
    method GetDevices(pdev: array?<Node?>, typ: bv64, sz: nat) returns (r: int, cnt: nat, ghost idx: seq<nat>)
      requires Valid()
      requires pdev != null ==> sz <= pdev.Length && 0 < pdev.Length
      modifies pdev
      ensures var found := old(Answered(nodes, Enabled(nodes), typ, pdev != null, sz));
              && cnt == |found|
              && r == (if found == [] then CL_DEVICE_NOT_FOUND else CL_SUCCESS)
              && (pdev != null ==> pdev[..] == Filled(old(pdev[..]), found))
      ensures old(AnswerChosen(nodes, Enabled(nodes), typ, pdev != null, sz, idx)) && Rising(nodes, idx) && cnt == |idx|
      ensures pdev != null ==> |idx| <= pdev.Length && pdev[..] == Filled(old(pdev[..]), Picked(nodes, idx))
    {
      hide Matches, Distinct, HasType, Nexts, Filled, NoneTyped, FirstTyped, Answered, AnswerChosen, Picked, Rising;
      var dev := head;
      cnt := 0;
      ghost var i := 0;
      ghost var found: seq<Node> := [];
      ghost var was: seq<Node?> := if pdev == null then [] else pdev[..];
      ghost var none := pdev != null && sz == 0;
      ghost var on := Enabled(nodes);
      MatchesNone(nodes, on, typ);
      NoneYet(nodes, typ);
      FilledNone(was);
      assert Links([head] + nodes, null);
      while dev.devNext != null
        invariant 0 <= i <= |nodes| && dev == ([head] + nodes)[i]
        invariant found == Matches(nodes[..i], on, typ) && cnt == |found|
        invariant if none then NoneTyped(nodes[..i], typ) && found == [] else pdev != null ==> cnt < sz
        invariant pdev != null ==> pdev[..] == Filled(was, found)
        decreases |nodes| - i
      {
        dev := dev.devNext;
        MatchesNext(nodes, on, i, typ);
        i := i + 1;
        if !HasType(dev, typ) {
          NoneNext(nodes, typ, i - 1);
          continue;
        }
        if dev.enabled {
          if pdev != null {
            FilledNext(was, found, dev);
            pdev[cnt] := dev;
          }
          cnt := cnt + 1;
          found := found + [dev];
        }
        if none {
          FirstTypedAt(nodes, on, typ, i - 1);
        }
        if pdev != null && cnt >= sz {
          break;
        }
      }
      if none && NoneTyped(nodes[..i], typ) && i == |nodes| {
        FirstTypedAt(nodes, on, typ, i);
      }
      AnsweredIs(nodes, on, typ, i, found, pdev != null, sz);
      idx := AnsweredChosen(nodes, on, typ, pdev != null, sz);
      if cnt == 0 {
        return CL_DEVICE_NOT_FOUND, cnt, idx;
      } else {
        return CL_SUCCESS, cnt, idx;
      }
    }

    /** `in_clGetDeviceIDs`; `init` is the result of `dev_init`, and `count` is what `*num_devices` gets. An array
        receives exactly the first of the matching devices, as many as the caller made room for. */
    method GetDeviceIDs(typ: bv64, numEntries: nat, devices: array?<Node?>, wantCount: bool, init: int)
      returns (r: int, count: nat, ghost idx: seq<nat>)
      requires Valid()
      requires devices != null ==> numEntries <= devices.Length
      modifies devices
      ensures var all := old(Matches(nodes, Enabled(nodes), typ));
              var bad := (devices != null && numEntries == 0) || (devices == null && !wantCount);
              && r == (if bad then CL_INVALID_VALUE
                       else if init != CL_SUCCESS then init
                       else if all == [] then CL_DEVICE_NOT_FOUND
                       else CL_SUCCESS)
              && (r == CL_SUCCESS && wantCount ==> count == if devices == null || |all| < numEntries then |all| else numEntries)
              && (devices != null ==> forall j :: 0 <= j < devices.Length ==>
                    devices[j] == if r == CL_SUCCESS && j < numEntries && j < |all| then all[j] else old(devices[j]))
      ensures r == CL_SUCCESS ==>
        && idx != [] && Rising(nodes, idx) && (wantCount ==> count == |idx|)
        && old(Chosen(nodes, Enabled(nodes), typ, if devices != null then numEntries else |nodes|, idx))
        && (devices != null ==>
              |idx| <= devices.Length && devices[..] == Filled(old(devices[..]), Picked(nodes, idx)))
      ensures init == CL_SUCCESS && (if devices == null then wantCount else numEntries > 0) ==>
        (r == CL_SUCCESS <==> exists k :: 0 <= k < |nodes| && old(nodes[k].enabled) && Share(nodes[k].devType, typ))
    {
      hide Chosen, FirstChosen, Share;
      count, idx := 0, [];
      if devices != null && numEntries == 0 {
        return CL_INVALID_VALUE, count, idx;
      }
      if devices == null && !wantCount {
        return CL_INVALID_VALUE, count, idx;
      }
      r := init;
      if r != CL_SUCCESS {
        return;
      }
      var num := numEntries;
      ghost var on := Enabled(nodes);
      r, num, idx := GetDevices(devices, typ, num);
      SomeChosen(nodes, on, typ, if devices != null then numEntries else |nodes|, idx);
      if r != CL_SUCCESS {
        return;
      }
      if wantCount {
        count := num;
      }
      return CL_SUCCESS, count, idx;
    }
  }
}
