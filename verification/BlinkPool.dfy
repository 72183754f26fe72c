/** The list of blink.S, threaded by NEXT through the fixed pool of fish.c, and its operations in place. */
module BlinkPool {
  import opened Common
  import opened Blinkers

  const NULL := -1

  datatype Node = Node(b: Blinker, next: int)

  const ZERO := Node(Blinker(0, '\0', '\0', 0, 0, 0, 0), NULL)

  /** Following NEXT from `head` visits exactly `chain`, once each. */
  ghost predicate Linked(nodes: seq<Node>, head: int, chain: seq<int>)
    decreases |chain|
  {
    if chain == [] then head == NULL
    else
      && head == chain[0] && 0 <= head < |nodes| && head !in chain[1..]
      && Linked(nodes, nodes[head].next, chain[1..])
  }

  /** A slot is on the list exactly when its location is not 0. */
  ghost predicate Occupied(nodes: seq<Node>, chain: seq<int>) {
    forall i :: 0 <= i < |nodes| ==> (nodes[i].b.location != 0 <==> i in chain)
  }

  ghost predicate OnPool(nodes: seq<Node>, head: int, chain: seq<int>) {
    Linked(nodes, head, chain) && Occupied(nodes, chain)
  }

  lemma {:induction false} LinkedFrame(nodes: seq<Node>, other: seq<Node>, head: int, chain: seq<int>)
    requires |nodes| == |other| && Linked(nodes, head, chain)
    requires forall i :: 0 <= i < |nodes| && i in chain ==> other[i].next == nodes[i].next
    ensures Linked(other, head, chain)
    decreases |chain|
  {
    if chain != [] {
      assert chain[0] in chain && forall i :: i in chain[1..] ==> i in chain;
      LinkedFrame(nodes, other, nodes[head].next, chain[1..]);
    }
  }

  lemma {:induction false} LinkedAt(nodes: seq<Node>, head: int, chain: seq<int>, k: nat)
    requires Linked(nodes, head, chain) && k < |chain|
    ensures 0 <= chain[k] < |nodes|
    ensures nodes[chain[k]].next == if k + 1 < |chain| then chain[k + 1] else NULL
    ensures forall j :: k < j < |chain| ==> chain[j] != chain[k]
    decreases |chain|
  {
    if k > 0 {
      LinkedAt(nodes, nodes[head].next, chain[1..], k - 1);
      forall j | k < j < |chain| ensures chain[j] != chain[k] {
        assert chain[1..][j - 1] == chain[j];
      }
    } else {
      forall j | 0 < j < |chain| ensures chain[j] != chain[0] {
        assert chain[j] == chain[1..][j - 1];
      }
    }
  }

  lemma LinkedAll(nodes: seq<Node>, head: int, chain: seq<int>)
    requires Linked(nodes, head, chain)
    ensures forall k :: 0 <= k < |chain| ==> 0 <= chain[k] < |nodes|
    ensures forall j, k :: 0 <= j < k < |chain| ==> chain[j] != chain[k]
    ensures head == if chain == [] then NULL else chain[0]
  {
    forall k | 0 <= k < |chain| ensures 0 <= chain[k] < |nodes| {
      LinkedAt(nodes, head, chain, k);
    }
    forall j, k | 0 <= j < k < |chain| ensures chain[j] != chain[k] {
      LinkedAt(nodes, head, chain, j);
    }
  }

  // ----- Counting -----

  function Elements(chain: seq<int>): set<int> {
    set i | i in chain
  }

  lemma {:induction false} DistinctCount(chain: seq<int>)
    requires forall j, k :: 0 <= j < k < |chain| ==> chain[j] != chain[k]
    ensures |Elements(chain)| == |chain|
    decreases |chain|
  {
    if chain != [] {
      var rest := chain[1..];
      DistinctCount(rest);
      assert Elements(chain) == {chain[0]} + Elements(rest);
    }
  }

  function Slots(n: nat): (s: set<int>)
    ensures |s| == n
    ensures forall i :: i in s <==> 0 <= i < n
  {
    if n == 0 then {} else Slots(n - 1) + {n - 1}
  }

  ghost function FreeSlots(nodes: seq<Node>): set<int> {
    set i | i in Slots(|nodes|) && 0 <= i < |nodes| && nodes[i].b.location == 0
  }

  lemma SubsetCount(a: set<int>, b: set<int>)
    requires a <= b
    ensures |b - a| == |b| - |a|
  {}

  /** Used and free slots together are the whole pool, and the used ones are the list. */
  lemma UsedAndFree(nodes: seq<Node>, head: int, chain: seq<int>)
    requires OnPool(nodes, head, chain)
    ensures |chain| + |FreeSlots(nodes)| == |nodes|
  {
    LinkedAll(nodes, head, chain);
    DistinctCount(chain);
    assert FreeSlots(nodes) == Slots(|nodes|) - Elements(chain);
    SubsetCount(Elements(chain), Slots(|nodes|));
  }

  /** The allocator finds a slot exactly when the list is shorter than the pool. */
  lemma FullIff(nodes: seq<Node>, head: int, chain: seq<int>)
    requires OnPool(nodes, head, chain)
    ensures |chain| <= |nodes|
    ensures (forall i :: 0 <= i < |nodes| ==> nodes[i].b.location != 0) <==> |chain| == |nodes|
  {
    UsedAndFree(nodes, head, chain);
    if |chain| == |nodes| {
      assert FreeSlots(nodes) == {};
      forall i | 0 <= i < |nodes| ensures nodes[i].b.location != 0 {
        assert i !in FreeSlots(nodes) && i in Slots(|nodes|);
      }
    } else {
      var i :| i in FreeSlots(nodes);
    }
  }

  // ----- The list in the pool -----

  ghost function Contents(nodes: seq<Node>, chain: seq<int>): (r: seq<Blinker>)
    requires forall k :: 0 <= k < |chain| ==> 0 <= chain[k] < |nodes|
    ensures |r| == |chain|
  {
    seq(|chain|, k requires 0 <= k < |chain| => nodes[chain[k]].b)
  }

  lemma ContentsWithout(nodes: seq<Node>, after: seq<Node>, chain: seq<int>, k: nat)
    requires k < |chain| && |after| == |nodes|
    requires forall j :: 0 <= j < |chain| ==> 0 <= chain[j] < |nodes|
    requires forall i, j :: 0 <= i < j < |chain| ==> chain[i] != chain[j]
    requires forall i :: 0 <= i < |nodes| && i != chain[k] ==> after[i].b == nodes[i].b
    ensures forall j :: 0 <= j < |Without(chain, k)| ==> 0 <= Without(chain, k)[j] < |nodes|
    ensures Contents(after, Without(chain, k)) == Without(Contents(nodes, chain), k)
  {
    var left := Without(chain, k);
    forall j | 0 <= j < |left| ensures 0 <= left[j] < |nodes| && after[left[j]].b == nodes[left[j]].b {
      assert left[j] == chain[if j < k then j else j + 1] != chain[k];
    }
    var a, b := Contents(after, left), Without(Contents(nodes, chain), k);
    forall j | 0 <= j < |left| ensures a[j] == b[j] {
      assert left[j] == chain[if j < k then j else j + 1];
    }
  }

  lemma ContentsGrow(nodes: seq<Node>, after: seq<Node>, chain: seq<int>, slot: int)
    requires |after| == |nodes| && 0 <= slot < |nodes|
    requires forall j :: 0 <= j < |chain| ==> 0 <= chain[j] < |nodes| && chain[j] != slot
    requires forall i :: 0 <= i < |nodes| && i != slot ==> after[i].b == nodes[i].b
    ensures Contents(after, [slot] + chain) == [after[slot].b] + Contents(nodes, chain)
  {}

  /** The allocator's choice: the lowest free slot, or the size of the pool. */
  function FirstFree(nodes: seq<Node>): (i: nat)
    ensures i <= |nodes|
    ensures i < |nodes| ==> nodes[i].b.location == 0
    ensures forall j :: 0 <= j < i ==> nodes[j].b.location != 0
  {
    if nodes == [] || nodes[0].b.location == 0 then 0 else 1 + FirstFree(nodes[1..])
  }

  lemma FirstFreeIs(nodes: seq<Node>, i: nat)
    requires i <= |nodes| && (i < |nodes| ==> nodes[i].b.location == 0)
    requires forall j :: 0 <= j < i ==> nodes[j].b.location != 0
    ensures FirstFree(nodes) == i
  {}

  /** What an add makes of the pool and the head of the list, wherever the blinker is to stand. */
  function Pushed(nodes: seq<Node>, head: int, b: Blinker): (seq<Node>, int) {
    var slot := FirstFree(nodes);
    if b.location >= CELLS || slot == |nodes| then (nodes, head) else (nodes[slot := Node(Started(b), head)], slot)
  }

  /** The location field of a node taken from outside is what the pool's bookkeeping rests on: a node at
      location 0 is linked but still counts as free. */
  lemma AddKeepsPoolIff(nodes: seq<Node>, head: int, chain: seq<int>, b: Blinker, slot: int)
    requires OnPool(nodes, head, chain)
    requires 0 <= slot < |nodes| && nodes[slot].b.location == 0
    ensures var after := nodes[slot := Node(Started(b), head)];
      (exists grown :: OnPool(after, slot, grown)) <==> b.location != 0
  {
    var after := nodes[slot := Node(Started(b), head)];
    if b.location != 0 {
      AddLinks(nodes, head, chain, b, slot);
    } else {
      forall grown | Linked(after, slot, grown) ensures !OnPool(after, slot, grown) {
        assert slot in grown && after[slot].b.location == 0;
      }
    }
  }

  /** The node reached after `k` links. */
  function Follow(nodes: seq<Node>, i: int, k: nat): int
    decreases k
  {
    if k == 0 || !(0 <= i < |nodes|) then i else Follow(nodes, nodes[i].next, k - 1)
  }

  lemma {:induction false} FollowStays(nodes: seq<Node>, i: int, k: nat)
    requires 0 <= i < |nodes| && nodes[i].next == i
    ensures Follow(nodes, i, k) == i
  {
    if k > 0 { FollowStays(nodes, i, k - 1); }
  }

  lemma LoopIsNoList(nodes: seq<Node>, i: int, links: seq<int>)
    requires 0 <= i < |nodes| && nodes[i].next == i
    ensures !Linked(nodes, i, links)
  {
    if |links| > 1 && links[1..][0] == i {
      assert i in links[1..];
    }
  }

  /** An add at location 0 to any list with room, and then any add that is taken, lose the list: the second
      node lands in the slot of the first and is linked to itself, so a walk never leaves it. */
  lemma AddAtZeroLosesTheList(nodes: seq<Node>, head: int, chain: seq<int>, b: Blinker, d: Blinker)
    requires OnPool(nodes, head, chain) && |chain| < |nodes|
    requires b.location == 0 && d.location < CELLS
    ensures var (one, first) := Pushed(nodes, head, b);
      var (two, second) := Pushed(one, first, d);
      && 0 <= second < |two| && two[second] == Node(Started(d), second)
      && (forall k: nat :: Follow(two, second, k) == second)
      && (forall links :: !Linked(two, second, links))
  {
    FullIff(nodes, head, chain);
    var slot := FirstFree(nodes);
    var (one, first) := Pushed(nodes, head, b);
    FirstFreeIs(one, slot);
    var (two, second) := Pushed(one, first, d);
    forall k: nat ensures Follow(two, second, k) == second {
      FollowStays(two, second, k);
    }
    forall links ensures !Linked(two, second, links) {
      LoopIsNoList(two, second, links);
    }
  }

  lemma AddLinks(nodes: seq<Node>, head: int, chain: seq<int>, b: Blinker, slot: int)
    requires OnPool(nodes, head, chain) && b.location != 0
    requires 0 <= slot < |nodes| && nodes[slot].b.location == 0
    ensures var after, grown := nodes[slot := Node(Started(b), head)], [slot] + chain;
      OnPool(after, slot, grown)
  {
    var after, grown := nodes[slot := Node(Started(b), head)], [slot] + chain;
    assert grown[1..] == chain;
    LinkedFrame(nodes, after, head, chain);
  }

  lemma RemoveLinks(nodes: seq<Node>, head: int, chain: seq<int>, k: nat)
    requires OnPool(nodes, head, chain) && k < |chain|
    requires 0 <= chain[k] < |nodes| && (k > 0 ==> 0 <= chain[k - 1] < |nodes|)
    ensures var linked := if k == 0 then nodes else
                            nodes[chain[k - 1] := nodes[chain[k - 1]].(next := nodes[chain[k]].next)];
      var after := linked[chain[k] := ZERO];
      OnPool(after, if k == 0 then nodes[head].next else head, Without(chain, k))
  {
    hide Linked;
    LinkedAll(nodes, head, chain);
    var linked := if k == 0 then nodes else
                    nodes[chain[k - 1] := nodes[chain[k - 1]].(next := nodes[chain[k]].next)];
    var after := linked[chain[k] := ZERO];
    Unlinked(nodes, after, head, chain, k);
    var left := Without(chain, k);
    forall i | 0 <= i < |nodes| ensures after[i].b.location != 0 <==> i in left {
      if i in chain {
        var j :| 0 <= j < |chain| && chain[j] == i;
        if j != k {
          assert left[if j < k then j else j - 1] == i;
        }
      }
    }
  }

  lemma WithoutTail(chain: seq<int>, k: nat)
    requires 0 < k < |chain| && chain[0] !in chain[1..]
    ensures Without(chain, k) != [] && Without(chain, k)[0] == chain[0]
    ensures Without(chain, k)[1..] == Without(chain[1..], k - 1)
    ensures chain[0] !in Without(chain, k)[1..]
  {
    var left := Without(chain, k);
    assert forall j :: 0 <= j < |left| - 1 ==> left[1..][j] == chain[1..][if j < k - 1 then j else j + 1];
  }

  lemma {:induction false} Unlinked(nodes: seq<Node>, after: seq<Node>, head: int, chain: seq<int>, k: nat)
    requires |nodes| == |after| && Linked(nodes, head, chain) && k < |chain|
    requires forall i :: 0 <= i < |nodes| && i in chain && i != chain[k] && (k == 0 || i != chain[k - 1]) ==>
      after[i].next == nodes[i].next
    requires 0 <= chain[k] < |nodes|
    requires k > 0 ==> 0 <= chain[k - 1] < |nodes| && after[chain[k - 1]].next == nodes[chain[k]].next
    ensures Linked(after, if k == 0 then nodes[head].next else head, Without(chain, k))
    decreases k
  {
    LinkedAll(nodes, head, chain);
    assert forall i :: i in chain[1..] ==> i in chain;
    if k == 0 {
      assert Without(chain, 0) == chain[1..];
      LinkedFrame(nodes, after, nodes[head].next, chain[1..]);
    } else {
      WithoutTail(chain, k);
      Unlinked(nodes, after, nodes[head].next, chain[1..], k - 1);
    }
  }

  // ----- The program -----

  class BlinkList {
    const blinkArray: array<Node>
    var head: int
    ghost var chain: seq<int>

    ghost predicate Valid()
      reads this, blinkArray
    {
      blinkArray.Length == CELLS && OnPool(blinkArray[..], head, chain) && InRange()
    }

    ghost predicate InRange()
      reads this, blinkArray
    {
      forall k :: 0 <= k < |chain| ==> 0 <= chain[k] < blinkArray.Length
    }

    ghost function List(): seq<Blinker>
      requires InRange()
      reads this, blinkArray
    {
      Contents(blinkArray[..], chain)
    }

    /** The pool after memset, and an empty list. */
    constructor ()
      ensures Valid() && List() == [] && fresh(blinkArray)
    {
      blinkArray := new Node[CELLS](_ => ZERO);
      head := NULL;
      chain := [];
    }

    /** mp1_malloc */
    method Malloc() returns (slot: int)
      requires blinkArray.Length == CELLS
      ensures slot == if FirstFree(blinkArray[..]) < CELLS then FirstFree(blinkArray[..]) else NULL
    {
      for i := 0 to CELLS
        invariant forall j :: 0 <= j < i ==> blinkArray[j].b.location != 0
      {
        if blinkArray[i].b.location == 0 {
          FirstFreeIs(blinkArray[..], i);
          return i;
        }
      }
      FirstFreeIs(blinkArray[..], CELLS);
      return NULL;
    }

    /** mp1_ioctl_add, in any state of the pool. On a proper list it is the list's own add, unless the
        blinker is at location 0. */
    method Add(b: Blinker) returns (r: int)
      requires blinkArray.Length == CELLS
      modifies this, blinkArray
      ensures (blinkArray[..], head) == Pushed(old(blinkArray[..]), old(head), b)
      ensures r == if b.location < CELLS && FirstFree(old(blinkArray[..])) < CELLS then 0 else -1
      ensures old(Valid()) && b.location != 0 ==>
        && Valid() && List() == Step(old(List()), Op.Add(b))
        && r == if AddTakes(old(List()), b) then 0 else -1
    {
      hide Linked, Occupied;
      if OnPool(blinkArray[..], head, chain) {
        FullIff(blinkArray[..], head, chain);
      }
      if b.location >= CELLS {
        return -1;
      }
      var temp := b.(status := 1);
      temp := temp.(countdown := b.onLength);
      var slot := Malloc();
      if slot == NULL {
        return -1;
      }
      Insert(slot, temp, b);
      return 0;
    }

    /** The node goes to the front of the list. */
    method Insert(slot: int, temp: Blinker, ghost b: Blinker)
      requires blinkArray.Length == CELLS && 0 <= slot < CELLS && blinkArray[slot].b.location == 0
      requires temp == Started(b)
      modifies this, blinkArray
      ensures blinkArray[..] == old(blinkArray[..])[slot := Node(temp, old(head))] && head == slot
      ensures old(Valid()) && b.location != 0 ==> Valid() && List() == [temp] + old(List())
    {
      hide Linked, Occupied;
      ghost var nodes, proper, links := blinkArray[..], Valid() && b.location != 0, chain;
      if proper {
        AddLinks(nodes, head, chain, b, slot);
      }
      blinkArray[slot] := Node(temp, head);
      head := slot;
      chain := [slot] + chain;
      assert blinkArray[..] == nodes[slot := Node(Started(b), old(head))];
      if proper {
        LinkedAll(blinkArray[..], head, chain);
        assert forall j :: 0 <= j < |links| ==> chain[j + 1] == links[j];
        ContentsGrow(nodes, blinkArray[..], links, slot);
      }
    }

    /** mp1_find_helper; `k` is the place on the list. */
    method FindHelper(location: nat) returns (i: int, ghost k: nat)
      requires Valid()
      ensures k == Find(List(), location % U16)
      ensures i == if Find(List(), location % U16) < |chain| then chain[Find(List(), location % U16)] else NULL
    {
      hide Linked, Occupied;
      LinkedAll(blinkArray[..], head, chain);
      i, k := head, 0;
      while i != NULL
        invariant k <= |chain| && i == (if k < |chain| then chain[k] else NULL)
        invariant forall j :: 0 <= j < k ==> List()[j].location != location % U16
        decreases |chain| - k
      {
        if blinkArray[i].b.location == location % U16 {
          FindIs(List(), location % U16, k);
          return;
        }
        LinkedAt(blinkArray[..], head, chain, k);
        i := blinkArray[i].next;
        k := k + 1;
      }
      FindIs(List(), location % U16, k);
    }

    /** mp1_ioctl_remove */
    method Remove(location: nat) returns (r: int)
      requires Valid()
      modifies this, blinkArray
      ensures Valid()
      ensures List() == Step(old(List()), Op.Remove(location % U16))
      ensures r == if Find(old(List()), location % U16) < |old(List())| then 0 else -1
    {
      var i, k := FindHelper(location);
      if i == NULL {
        return -1;
      }
      Unlink(i, k);
      return 0;
    }

    /** Find the link that points at node `i`, point it past the node, and free the node. */
    method Unlink(i: int, ghost k: nat)
      requires Valid() && k < |chain| && i == chain[k]
      modifies this, blinkArray
      ensures Valid()
      ensures List() == Without(old(List()), k)
    {
      hide Linked, Occupied;
      ghost var nodes, links := blinkArray[..], chain;
      LinkedAll(nodes, head, links);
      RemoveLinks(nodes, head, links, k);
      if k > 0 { LinkedAt(nodes, head, links, k - 1); }
      if head == i {
        head := blinkArray[i].next;
        assert k == 0;
      } else {
        var prev := FindPrev(i, k);
        blinkArray[prev] := blinkArray[prev].(next := blinkArray[i].next);
        assert blinkArray[..] == nodes[links[k - 1] := nodes[links[k - 1]].(next := nodes[i].next)];
      }
      ghost var linked := blinkArray[..];
      blinkArray[i] := ZERO;
      assert blinkArray[..] == linked[i := ZERO];
      chain := Without(links, k);
      ContentsWithout(nodes, blinkArray[..], links, k);
    }

    /** The node whose link points at node `i`. */
    method FindPrev(i: int, ghost k: nat) returns (prev: int)
      requires Valid() && 0 < k < |chain| && i == chain[k]
      ensures prev == chain[k - 1]
    {
      hide Linked, Occupied;
      LinkedAll(blinkArray[..], head, chain);
      prev := head;
      ghost var j: nat := 0;
      LinkedAt(blinkArray[..], head, chain, 0);
      while blinkArray[prev].next != i
        invariant j < k && prev == chain[j] && blinkArray[prev].next == chain[j + 1]
        decreases k - j
      {
        prev := blinkArray[prev].next;
        j := j + 1;
        LinkedAt(blinkArray[..], head, chain, j);
      }
    }

    /** mp1_ioctl_sync; the argument holds the source location above the target's. */
    method Sync(arg: nat) returns (r: int)
      requires Valid() && arg < U16 * U16
      modifies this, blinkArray
      ensures Valid()
      ensures List() == Step(old(List()), Op.Sync(arg / U16, arg % U16))
      ensures r == if SyncFinds(old(List()), arg / U16, arg % U16) then 0 else -1
    {
      hide Linked, Occupied, Find;
      var source, k := FindHelper(arg / U16);
      if source == NULL {
        return -1;
      }
      var target, l := FindHelper(arg % U16);
      if target == NULL {
        return -1;
      }
      var s, t := blinkArray[source].b, blinkArray[target].b;
      t := t.(onLength := s.onLength);
      t := t.(offLength := s.offLength);
      t := t.(countdown := s.countdown);
      t := t.(status := s.status);
      assert t == Copied(List()[k], List()[l]);
      Rewrite(target, l, t);
      return 0;
    }

    /** New timing fields for the node at place `k`. */
    method Rewrite(i: int, ghost k: nat, b: Blinker)
      requires Valid() && k < |chain| && i == chain[k] && b.location == blinkArray[i].b.location
      modifies blinkArray
      ensures Valid() && List() == old(List())[k := b]
      ensures forall j :: 0 <= j < CELLS ==> blinkArray[j].next == old(blinkArray[j].next)
    {
      LinkedAll(blinkArray[..], head, chain);
      ghost var nodes := blinkArray[..];
      blinkArray[i] := blinkArray[i].(b := b);
      LinkedFrame(nodes, blinkArray[..], head, chain);
      assert Occupied(blinkArray[..], chain);
    }

    /** mp1_rtc_tasklet: one walk over the list. */
    method RtcTasklet()
      requires Valid()
      modifies blinkArray
      ensures Valid()
      ensures List() == Step(old(List()), Rtc)
    {
      hide Linked, Occupied;
      var i := head;
      ghost var k: nat, list := 0, List();
      LinkedAll(blinkArray[..], head, chain);
      while i != NULL
        invariant Valid() && k <= |chain| && i == (if k < |chain| then chain[k] else NULL)
        invariant forall j :: 0 <= j < |chain| ==> List()[j] == if j < k then Tick(list[j]) else list[j]
        decreases |chain| - k
      {
        LinkedAt(blinkArray[..], head, chain, k);
        TickNode(i, k);
        i := blinkArray[i].next;
        k := k + 1;
      }
      assert List() == TickAll(list);
    }

    method TickNode(i: int, ghost k: nat)
      requires Valid() && k < |chain| && i == chain[k]
      modifies blinkArray
      ensures Valid() && List() == old(List())[k := Tick(old(List())[k])]
      ensures forall j :: 0 <= j < CELLS ==> blinkArray[j].next == old(blinkArray[j].next)
    {
      hide Linked, Occupied;
      var b := blinkArray[i].b;
      b := b.(countdown := (b.countdown + U16 - 1) % U16);
      if !(0 < b.countdown < U16 / 2) {
        if b.status % 2 == 1 {
          b := b.(countdown := b.offLength, status := b.status - 1);
        } else {
          b := b.(countdown := b.onLength, status := b.status + 1);
        }
      }
      Rewrite(i, k, b);
    }
  }

  lemma FindIs(list: seq<Blinker>, location: nat, k: nat)
    requires k <= |list| && (k < |list| ==> list[k].location == location)
    requires forall j :: 0 <= j < k ==> list[j].location != location
    ensures Find(list, location) == k
  {}
}
