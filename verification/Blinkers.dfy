/** blink.S and the allocator of fish.c: blinking characters as a plain list, their timing, and their runs. */
module Blinkers {
  import opened Common

  const CELLS := 2000

  /** mp1_blink_struct without its link; the numbers are 16-bit. */
  datatype Blinker = Blinker(location: nat, onChar: char, offChar: char, onLength: nat, offLength: nat,
                             countdown: nat, status: nat)

  // ----- The operations on a list -----

  function Started(b: Blinker): Blinker {
    b.(status := 1, countdown := b.onLength)
  }

  /** The first blinker at `location`, or the length of the list. */
  function Find(list: seq<Blinker>, location: nat): (i: nat)
    ensures i <= |list|
    ensures i < |list| ==> list[i].location == location
    ensures forall j :: 0 <= j < i ==> list[j].location != location
  {
    if list == [] || list[0].location == location then 0 else 1 + Find(list[1..], location)
  }

  /** sync copies the four timing fields. */
  function Copied(source: Blinker, target: Blinker): Blinker {
    target.(onLength := source.onLength, offLength := source.offLength,
            countdown := source.countdown, status := source.status)
  }

  /** One RTC tick: a 16-bit decrement, a signed test, and a toggle that reloads the countdown. */
  function Tick(b: Blinker): Blinker {
    var c := (b.countdown + U16 - 1) % U16;
    if 0 < c < U16 / 2 then b.(countdown := c)
    else if b.status % 2 == 1 then b.(countdown := b.offLength, status := b.status - 1)
    else b.(countdown := b.onLength, status := b.status + 1)
  }

  function TickAll(list: seq<Blinker>): (r: seq<Blinker>)
    ensures |r| == |list|
  {
    seq(|list|, i requires 0 <= i < |list| => Tick(list[i]))
  }

  /** The ioctl argument of a sync holds the source above the target. */
  datatype Op = Add(b: Blinker) | Remove(location: nat) | Sync(source: nat, target: nat) | Rtc

  predicate AddTakes(list: seq<Blinker>, b: Blinker) {
    b.location < CELLS && |list| < CELLS
  }

  predicate SyncFinds(list: seq<Blinker>, source: nat, target: nat) {
    Find(list, source) < |list| && Find(list, target) < |list|
  }

  function Without<T>(s: seq<T>, i: nat): (r: seq<T>)
    ensures |r| == if i < |s| then |s| - 1 else |s|
    ensures forall j :: 0 <= j < |r| ==> r[j] == if j < i then s[j] else s[j + 1]
  {
    if i < |s| then s[..i] + s[i + 1..] else s
  }

  function Step(list: seq<Blinker>, op: Op): seq<Blinker> {
    match op
    case Add(b) => if AddTakes(list, b) then [Started(b)] + list else list
    case Remove(location) => Without(list, Find(list, location))
    case Sync(source, target) =>
      if SyncFinds(list, source, target)
      then list[Find(list, target) := Copied(list[Find(list, source)], list[Find(list, target)])]
      else list
    case Rtc => TickAll(list)
  }

  // ----- Timing in closed form -----

  /** How many ticks a length lasts: what is not a positive signed number of ticks toggles at once. */
  function Ticks(length: nat): (n: nat)
    ensures n > 0
  {
    if 1 <= length <= U16 / 2 then length else 1
  }

  function Period(b: Blinker): (n: nat)
    ensures n > 1
  {
    Ticks(b.onLength) + Ticks(b.offLength)
  }

  /** Where a blinker stands `r` ticks into its period. */
  predicate At(b: Blinker, r: nat) {
    if r < Ticks(b.onLength) then b.status == 1 && b.countdown == b.onLength - r
    else b.status == 0 && b.countdown == b.offLength - (r - Ticks(b.onLength))
  }

  /** Where a blinker stands `age` ticks after it started. */
  predicate InPhase(b: Blinker, age: nat) {
    b.onLength < U16 && b.offLength < U16 && At(b, age % Period(b))
  }

  lemma NextRemainder(n: nat, m: nat)
    requires m > 1
    ensures (n + 1) % m == if n % m == m - 1 then 0 else n % m + 1
  {
    var q, r := n / m, n % m;
    assert n == q * m + r;
    if r == m - 1 {
      assert n + 1 == (q + 1) * m;
      RemainderIs(n + 1, q + 1, m, 0);
    } else {
      RemainderIs(n + 1, q, m, r + 1);
    }
  }

  lemma RemainderIs(n: nat, q: nat, m: nat, r: nat)
    requires r < m && n == q * m + r
    ensures n % m == r
  {
    var d := n / m - q;
    assert d * m == r - n % m;
    MultipleIsLarge(d, m);
  }

  lemma MultipleIsLarge(d: int, m: nat)
    ensures d >= 1 ==> d * m >= m
    ensures d <= -1 ==> d * m <= 0 - m
  {}

  lemma TickMovesOn(b: Blinker, r: nat)
    requires b.onLength < U16 && b.offLength < U16 && r < Period(b) && At(b, r)
    ensures Tick(b).onLength == b.onLength && Tick(b).offLength == b.offLength
    ensures At(Tick(b), if r == Period(b) - 1 then 0 else r + 1)
  {}

  lemma TickAdvancesPhase(b: Blinker, age: nat)
    requires InPhase(b, age)
    ensures InPhase(Tick(b), age + 1)
  {
    hide At, Tick;
    NextRemainder(age, Period(b));
    TickMovesOn(b, age % Period(b));
  }

  lemma StartedInPhase(b: Blinker)
    requires b.onLength < U16 && b.offLength < U16
    ensures InPhase(Started(b), 0)
  {}

  // ----- Runs -----

  /** The ages of the blinkers of a list: ticks since a blinker was added, or, once it has been the target
      of a sync, the age of its source. */
  function Aged(list: seq<Blinker>, ages: seq<nat>, op: Op): (r: seq<nat>)
    requires |ages| == |list|
    ensures |r| == |Step(list, op)|
  {
    match op
    case Add(b) => if AddTakes(list, b) then [0] + ages else ages
    case Remove(location) => Without(ages, Find(list, location))
    case Sync(source, target) =>
      if SyncFinds(list, source, target) then ages[Find(list, target) := ages[Find(list, source)]] else ages
    case Rtc => seq(|ages|, i requires 0 <= i < |ages| => ages[i] + 1)
  }

  predicate Sixteen(op: Op) {
    op.Add? ==> op.b.onLength < U16 && op.b.offLength < U16
  }

  ghost predicate AllInPhase(list: seq<Blinker>, ages: seq<nat>) {
    |ages| == |list| && forall i :: 0 <= i < |list| ==> InPhase(list[i], ages[i])
  }

  lemma StepKeepsPhase(list: seq<Blinker>, ages: seq<nat>, op: Op)
    requires AllInPhase(list, ages) && Sixteen(op)
    ensures AllInPhase(Step(list, op), Aged(list, ages, op))
  {
    hide InPhase;
    match op
    case Add(b) => StartedInPhase(b);
    case Remove(_) =>
    case Sync(source, target) =>
      if SyncFinds(list, source, target) {
        CopyTakesPhase(list[Find(list, source)], list[Find(list, target)], ages[Find(list, source)]);
      }
    case Rtc =>
      forall i | 0 <= i < |list| ensures InPhase(Tick(list[i]), ages[i] + 1) {
        TickAdvancesPhase(list[i], ages[i]);
      }
  }

  lemma CopyTakesPhase(source: Blinker, target: Blinker, age: nat)
    requires InPhase(source, age)
    ensures InPhase(Copied(source, target), age)
  {}

  function RunAged(list: seq<Blinker>, ages: seq<nat>, ops: seq<Op>): (r: (seq<Blinker>, seq<nat>))
    requires |ages| == |list|
    ensures |r.0| == |r.1|
    decreases |ops|
  {
    if ops == [] then (list, ages) else RunAged(Step(list, ops[0]), Aged(list, ages, ops[0]), ops[1..])
  }

  lemma {:induction false} RunKeepsPhase(list: seq<Blinker>, ages: seq<nat>, ops: seq<Op>)
    requires AllInPhase(list, ages) && forall op :: op in ops ==> Sixteen(op)
    ensures AllInPhase(RunAged(list, ages, ops).0, RunAged(list, ages, ops).1)
    decreases |ops|
  {
    hide InPhase, Step, Aged;
    if ops != [] {
      StepKeepsPhase(list, ages, ops[0]);
      RunKeepsPhase(Step(list, ops[0]), Aged(list, ages, ops[0]), ops[1..]);
    }
  }

  /** Over every run of adds, removes, syncs and ticks, every blinker is on exactly in the first part of its
      period, counted from its age. */
  lemma BlinkersKeepTime(ops: seq<Op>, i: nat)
    requires forall op :: op in ops ==> Sixteen(op)
    requires i < |RunAged([], [], ops).0|
    ensures var b, age := RunAged([], [], ops).0[i], RunAged([], [], ops).1[i];
      b.status == if age % Period(b) < Ticks(b.onLength) then 1 else 0
  {
    hide RunAged;
    RunKeepsPhase([], [], ops);
    assert InPhase(RunAged([], [], ops).0[i], RunAged([], [], ops).1[i]);
  }

  // ----- Lock-step -----

  /** Where blinker `i` of the list stands after an operation; a removed one stands nowhere. */
  function Moved(list: seq<Blinker>, op: Op, i: int): int {
    match op
    case Add(b) => if AddTakes(list, b) && i >= 0 then i + 1 else i
    case Remove(location) =>
      var k := Find(list, location);
      if i == k then -1 else if i > k then i - 1 else i
    case _ => i
  }

  /** The operation neither removes blinker `i` nor makes it the target of a sync. */
  predicate Spares(list: seq<Blinker>, op: Op, i: int) {
    match op
    case Remove(location) => Find(list, location) != i
    case Sync(source, target) => SyncFinds(list, source, target) ==> Find(list, target) != i
    case _ => true
  }

  predicate InStep(a: Blinker, b: Blinker) {
    a.onLength == b.onLength && a.offLength == b.offLength && a.countdown == b.countdown && a.status == b.status
  }

  function RunList(list: seq<Blinker>, ops: seq<Op>): seq<Blinker>
    decreases |ops|
  {
    if ops == [] then list else RunList(Step(list, ops[0]), ops[1..])
  }

  function MovedAll(list: seq<Blinker>, ops: seq<Op>, i: int): int
    decreases |ops|
  {
    if ops == [] then i else MovedAll(Step(list, ops[0]), ops[1..], Moved(list, ops[0], i))
  }

  predicate SparesAll(list: seq<Blinker>, ops: seq<Op>, i: int)
    decreases |ops|
  {
    ops == [] || (Spares(list, ops[0], i) && SparesAll(Step(list, ops[0]), ops[1..], Moved(list, ops[0], i)))
  }

  lemma SparedMoves(list: seq<Blinker>, op: Op, i: nat)
    requires i < |list| && Spares(list, op, i)
    ensures 0 <= Moved(list, op, i) < |Step(list, op)|
    ensures Step(list, op)[Moved(list, op, i)] == if op.Rtc? then Tick(list[i]) else list[i]
  {}

  function Ticked(ops: seq<Op>): nat {
    if ops == [] then 0 else (if ops[0].Rtc? then 1 else 0) + Ticked(ops[1..])
  }

  /** Whatever happens to the others, a blinker that is not removed or retargeted keeps its own time. */
  lemma {:induction false} SparedBlinkerKeepsTime(list: seq<Blinker>, ops: seq<Op>, i: nat, age: nat)
    requires i < |list| && InPhase(list[i], age) && SparesAll(list, ops, i)
    ensures var j := MovedAll(list, ops, i);
      && 0 <= j < |RunList(list, ops)| && InPhase(RunList(list, ops)[j], age + Ticked(ops))
      && RunList(list, ops)[j].onLength == list[i].onLength && RunList(list, ops)[j].offLength == list[i].offLength
    decreases |ops|
  {
    hide InPhase, Spares;
    if ops != [] {
      SparedMoves(list, ops[0], i);
      if ops[0].Rtc? {
        TickAdvancesPhase(list[i], age);
      }
      SparedBlinkerKeepsTime(Step(list, ops[0]), ops[1..], Moved(list, ops[0], i),
                             age + if ops[0].Rtc? then 1 else 0);
    }
  }

  lemma PhaseTells(b: Blinker, age: nat)
    requires InPhase(b, age) && 1 <= b.onLength <= U16 / 2 && 1 <= b.offLength <= U16 / 2
    ensures b.status == if age % (b.onLength + b.offLength) < b.onLength then 1 else 0
  {}

  /** From its add on, n ticks later a blinker is on exactly when n mod (on + off) is below on. */
  lemma AddedBlinkerKeepsTime(list: seq<Blinker>, b: Blinker, ops: seq<Op>)
    requires AddTakes(list, b) && 1 <= b.onLength <= 32768 && 1 <= b.offLength <= 32768
    requires SparesAll(Step(list, Add(b)), ops, 0)
    ensures var after, j := RunList(Step(list, Add(b)), ops), MovedAll(Step(list, Add(b)), ops, 0);
      && 0 <= j < |after|
      && after[j].status == if Ticked(ops) % (b.onLength + b.offLength) < b.onLength then 1 else 0
  {
    hide InPhase, RunList, MovedAll, SparesAll;
    StartedInPhase(b);
    var added := Step(list, Add(b));
    SparedBlinkerKeepsTime(added, ops, 0, 0);
    PhaseTells(RunList(added, ops)[MovedAll(added, ops, 0)], Ticked(ops));
  }

  /** Two blinkers in step stay in step through any run that removes and retargets neither. */
  lemma {:induction false} StayInStep(list: seq<Blinker>, ops: seq<Op>, i: nat, j: nat)
    requires i < |list| && j < |list| && InStep(list[i], list[j])
    requires SparesAll(list, ops, i) && SparesAll(list, ops, j)
    ensures var after, a, b := RunList(list, ops), MovedAll(list, ops, i), MovedAll(list, ops, j);
      0 <= a < |after| && 0 <= b < |after| && InStep(after[a], after[b])
    decreases |ops|
  {
    if ops != [] {
      SparedMoves(list, ops[0], i);
      SparedMoves(list, ops[0], j);
      StayInStep(Step(list, ops[0]), ops[1..], Moved(list, ops[0], i), Moved(list, ops[0], j));
    }
  }

  /** A sync puts its target in step with its source, until either is removed or retargeted. */
  lemma SyncedBlinkersStayInStep(list: seq<Blinker>, source: nat, target: nat, ops: seq<Op>)
    requires SyncFinds(list, source, target)
    requires var synced := Step(list, Sync(source, target));
      SparesAll(synced, ops, Find(list, source)) && SparesAll(synced, ops, Find(list, target))
    ensures var synced := Step(list, Sync(source, target));
      var after := RunList(synced, ops);
      var a, b := MovedAll(synced, ops, Find(list, source)), MovedAll(synced, ops, Find(list, target));
      0 <= a < |after| && 0 <= b < |after| && InStep(after[a], after[b])
  {
    StayInStep(Step(list, Sync(source, target)), ops, Find(list, source), Find(list, target));
  }

  // ----- Which characters blink where -----

  /** What a blinker shows and where, which nothing but its add sets. */
  datatype Label = Label(location: nat, onChar: char, offChar: char)

  function LabelOf(b: Blinker): Label {
    Label(b.location, b.onChar, b.offChar)
  }

  function Labels(list: seq<Blinker>): (r: seq<Label>)
    ensures |r| == |list|
  {
    seq(|list|, i requires 0 <= i < |list| => LabelOf(list[i]))
  }

  /** The list without its first label at `location`. */
  function Dropped(labels: seq<Label>, location: nat): seq<Label> {
    if labels == [] then []
    else if labels[0].location == location then labels[1..]
    else [labels[0]] + Dropped(labels[1..], location)
  }

  /** Adds, 2000 at most and on the screen, go to the front; removes take the first match; syncs and ticks
      change no label. */
  function Relabel(labels: seq<Label>, op: Op): seq<Label> {
    match op
    case Add(b) =>
      if b.location < 2000 && |labels| < 2000 then [Label(b.location, b.onChar, b.offChar)] + labels else labels
    case Remove(location) => Dropped(labels, location)
    case _ => labels
  }

  function RelabelAll(labels: seq<Label>, ops: seq<Op>): seq<Label>
    decreases |ops|
  {
    if ops == [] then labels else RelabelAll(Relabel(labels, ops[0]), ops[1..])
  }

  lemma {:induction false} RemoveDrops(list: seq<Blinker>, location: nat)
    ensures Labels(Without(list, Find(list, location))) == Dropped(Labels(list), location)
    decreases |list|
  {
    var i := Find(list, location);
    if list != [] {
      assert Labels(list)[1..] == Labels(list[1..]);
      if i > 0 {
        RemoveDrops(list[1..], location);
        assert Find(list[1..], location) == i - 1;
        assert Without(list, i) == [list[0]] + Without(list[1..], i - 1);
        assert Labels(Without(list, i)) == [LabelOf(list[0])] + Labels(Without(list[1..], i - 1));
      } else {
        assert Without(list, 0) == list[1..];
      }
    }
  }

  lemma StepRelabels(list: seq<Blinker>, op: Op)
    ensures Labels(Step(list, op)) == Relabel(Labels(list), op)
  {
    hide Find, Dropped;
    match op
    case Remove(location) => RemoveDrops(list, location);
    case _ =>
  }

  /** Over every run the list shows what the adds put on it and the removes have left. */
  lemma {:induction false} ListShowsItsLabels(list: seq<Blinker>, ops: seq<Op>)
    ensures Labels(RunList(list, ops)) == RelabelAll(Labels(list), ops)
    decreases |ops|
  {
    hide Step, Relabel, Labels;
    if ops != [] {
      StepRelabels(list, ops[0]);
      ListShowsItsLabels(Step(list, ops[0]), ops[1..]);
    }
  }

  /** An add that is taken is found at its location, on, with its own characters and lengths, in front of all
      others. */
  lemma AddedIsFound(list: seq<Blinker>, b: Blinker)
    requires b.location < 2000 && |list| < 2000
    ensures var r := Step(list, Add(b));
      && Find(r, b.location) == 0 && r[1..] == list
      && r[0] == Blinker(b.location, b.onChar, b.offChar, b.onLength, b.offLength, b.onLength, 1)
  {}

  /** A sync gives the target the source's timing, and changes no other blinker. */
  lemma SyncCopiesTiming(list: seq<Blinker>, source: nat, target: nat)
    ensures var r, i, j := Step(list, Sync(source, target)), Find(list, source), Find(list, target);
      if i < |list| && j < |list| then
        && |r| == |list| && InStep(r[j], list[i]) && LabelOf(r[j]) == LabelOf(list[j])
        && forall k :: 0 <= k < |list| && k != j ==> r[k] == list[k]
      else r == list
  {}
}
