/** The control flow of container and entity serialisation, as the trace of
    calls made on a serializer view.

    A view is an opaque sink, so it is represented by the events it receives.
    Per-item serializers and the view's answers are parameters: an item
    serializer is a function from the item and the name it is written under
    to the events it emits, the warnings it returns and its error, if any. */
module Serializer {
  import opened Base

  /** What a `start_*` / `end_*` pair brackets. */
  datatype Kind = Object | Container | ReadArray

  /** One call on the view; `Value` is a `serialize(name, value)` of a field. */
  datatype Event = Start(kind: Kind, name: string) | End(kind: Kind) | Value(name: string)

  /** `common::result<void, fs_error>` together with the events emitted. */
  datatype Outcome = Outcome(events: seq<Event>, warnings: seq<string>, error: Option<string>)

  /** `serializer<T>::serialize(item, view, name)`. */
  type ItemWriter<-T> = (T, string) -> Outcome

  /** `common::result<T, fs_error>` of a read, with the events it caused. */
  datatype Read<T> = Read(events: seq<Event>, warnings: seq<string>, value: Result<T>)

  /** `serializer<T>::deserialize(buffer, view, name)`: what the view yields for
      the item read under that name. */
  type ItemReader<T> = string -> Read<T>

  // ---------------------------------------------------------------------------
  // Decimal item names
  // ---------------------------------------------------------------------------

  function DigitChar(d: nat): (c: char)
    requires d < 10
    ensures '0' <= c <= '9'
  {
    ['0', '1', '2', '3', '4', '5', '6', '7', '8', '9'][d]
  }

  function DigitValue(c: char): (d: nat)
    requires '0' <= c <= '9'
    ensures d < 10 && DigitChar(d) == c
  {
    c as int - '0' as int
  }

  /** `std::to_string` on an unsigned value. */
  function NatToString(n: nat): (s: string)
    ensures |s| >= 1
    ensures forall i :: 0 <= i < |s| ==> '0' <= s[i] <= '9'
    decreases n
  {
    if n < 10 then [DigitChar(n)] else NatToString(n / 10) + [DigitChar(n % 10)]
  }

  /** Reads a decimal numeral back. */
  function ParseNat(s: string): nat
    requires forall i :: 0 <= i < |s| ==> '0' <= s[i] <= '9'
    decreases |s|
  {
    if s == [] then 0 else ParseNat(s[..|s| - 1]) * 10 + DigitValue(s[|s| - 1])
  }

  lemma DigitRoundTrip(d: nat)
    requires d < 10
    ensures DigitValue(DigitChar(d)) == d
  {
  }

  /** `std::to_string` is undone by reading the numeral back. */
  lemma {:induction false} NatToStringRoundTrip(n: nat)
    ensures ParseNat(NatToString(n)) == n
    decreases n
  {
    var s := NatToString(n);
    if n < 10 {
      DigitRoundTrip(n);
      assert s[..0] == [];
    } else {
      NatToStringRoundTrip(n / 10);
      DigitRoundTrip(n % 10);
      assert s[..|s| - 1] == NatToString(n / 10);
    }
  }

  const ItemPrefix: string := "item_"

  /** `"item_" + std::to_string(i)`. */
  function ItemName(i: nat): string {
    ItemPrefix + NatToString(i)
  }

  /** Different positions are written under different names. */
  lemma ItemNamesDistinct(i: nat, j: nat)
    requires i != j
    ensures ItemName(i) != ItemName(j)
  {
    NatToStringRoundTrip(i);
    NatToStringRoundTrip(j);
    assert ItemName(i)[|ItemPrefix|..] == NatToString(i);
    assert ItemName(j)[|ItemPrefix|..] == NatToString(j);
  }

  // ---------------------------------------------------------------------------
  // Balance of start and end calls
  // ---------------------------------------------------------------------------

  /** Replays events against a stack of open brackets; `None` when an end
      call does not close the innermost open bracket. */
  function Run(es: seq<Event>, stack: seq<Kind>): Option<seq<Kind>>
    decreases |es|
  {
    if es == [] then Some(stack)
    else match es[0]
      case Start(k, _) => Run(es[1..], stack + [k])
      case End(k) =>
        if stack != [] && stack[|stack| - 1] == k then Run(es[1..], stack[..|stack| - 1]) else None
      case Value(_) => Run(es[1..], stack)
  }

  /** Every start call is closed by the matching end call, innermost first. */
  predicate Balanced(es: seq<Event>) {
    Run(es, []) == Some([])
  }

  /** Replaying a concatenation replays its parts in turn. */
  lemma {:induction false} RunAppend(a: seq<Event>, b: seq<Event>, stack: seq<Kind>)
    ensures Run(a + b, stack) == match Run(a, stack) case None => None case Some(s) => Run(b, s)
    decreases |a|
  {
    if a == [] {
      assert a + b == b;
    } else {
      assert (a + b)[0] == a[0] && (a + b)[1..] == a[1..] + b;
      match a[0]
      case Start(k, _) => RunAppend(a[1..], b, stack + [k]);
      case End(k) =>
        if stack != [] && stack[|stack| - 1] == k {
          RunAppend(a[1..], b, stack[..|stack| - 1]);
        }
      case Value(_) => RunAppend(a[1..], b, stack);
    }
  }

  /** Brackets opened and closed by `es` do not look below the stack they start on. */
  lemma {:induction false} RunUnder(es: seq<Event>, base: seq<Kind>, s1: seq<Kind>, s2: seq<Kind>)
    requires Run(es, s1) == Some(s2)
    ensures Run(es, base + s1) == Some(base + s2)
    decreases |es|
  {
    if es != [] {
      match es[0]
      case Start(k, _) =>
        assert base + s1 + [k] == base + (s1 + [k]);
        RunUnder(es[1..], base, s1 + [k], s2);
      case End(k) =>
        assert (base + s1)[..|base + s1| - 1] == base + s1[..|s1| - 1];
        RunUnder(es[1..], base, s1[..|s1| - 1], s2);
      case Value(_) => RunUnder(es[1..], base, s1, s2);
    }
  }

  lemma BalancedAppend(a: seq<Event>, b: seq<Event>)
    requires Balanced(a) && Balanced(b)
    ensures Balanced(a + b)
  {
    RunAppend(a, b, []);
  }

  /** A balanced trace between a start call and its end call is balanced. */
  lemma BalancedWrap(k: Kind, name: string, es: seq<Event>)
    requires Balanced(es)
    ensures Balanced([Start(k, name)] + es + [End(k)])
  {
    RunAppend([Start(k, name)] + es, [End(k)], []);
    RunAppend([Start(k, name)], es, []);
    assert Run([Start(k, name)], []) == Some([k]) by {
      assert [Start(k, name)][1..] == [];
      assert [] + [k] == [k];
    }
    RunUnder(es, [k], [], []);
    assert [k] + [] == [k];
    assert Run([Start(k, name)] + es, []) == Some([k]);
    assert Run([End(k)], [k]) == Some([]) by {
      assert [End(k)][1..] == [];
      assert [k][..0] == [];
    }
  }

  // ---------------------------------------------------------------------------
  // serialize_container
  // ---------------------------------------------------------------------------

  /** The loop of `serialize_container` from position `i`: stops after the
      first item that fails. */
  function SerializeItems<T>(items: seq<T>, write: ItemWriter<T>, i: nat): Outcome
    requires i <= |items|
    decreases |items| - i
  {
    if i == |items| then Outcome([], [], None)
    else
      var o := write(items[i], ItemName(i));
      if o.error.Some? then o
      else
        var rest := SerializeItems(items, write, i + 1);
        Outcome(o.events + rest.events, o.warnings + rest.warnings, rest.error)
  }

  /** `detail::serialize_container(container, view, name)`. */
  function SerializeContainer<T>(items: seq<T>, write: ItemWriter<T>, name: string): (r: Outcome)
    ensures |r.events| >= 2 && r.events[0] == Start(Container, name) && r.events[|r.events| - 1] == End(Container)
  {
    var b := SerializeItems(items, write, 0);
    Outcome([Start(Container, name)] + b.events + [End(Container)], b.warnings, b.error)
  }

  /** What each item's serializer yields, item `i` under `item_i`. */
  function Outs<T>(items: seq<T>, write: ItemWriter<T>): (r: seq<Outcome>)
    ensures |r| == |items|
    ensures forall i :: 0 <= i < |items| ==> r[i] == write(items[i], ItemName(i))
  {
    seq(|items|, i requires 0 <= i < |items| => write(items[i], ItemName(i)))
  }

  /** The position of the first failing outcome, `|outs|` when none fails. */
  function FirstError(outs: seq<Outcome>): (k: nat)
    ensures k <= |outs|
    ensures forall j :: 0 <= j < k ==> outs[j].error.None?
    ensures k < |outs| ==> outs[k].error.Some?
    decreases |outs|
  {
    if outs == [] then 0
    else if outs[0].error.Some? then 0
    else 1 + FirstError(outs[1..])
  }

  function FlatEvents(outs: seq<Outcome>): seq<Event>
    decreases |outs|
  {
    if outs == [] then [] else outs[0].events + FlatEvents(outs[1..])
  }

  function FlatWarnings(outs: seq<Outcome>): seq<string>
    decreases |outs|
  {
    if outs == [] then [] else outs[0].warnings + FlatWarnings(outs[1..])
  }

  /** The intended effect of a loop over outcomes that stops at the first
      error: the outcomes up to and including that error, concatenated. */
  function Processed(outs: seq<Outcome>): (r: Outcome) {
    var k := FirstError(outs);
    var p := if k < |outs| then k + 1 else k;
    Outcome(FlatEvents(outs[..p]), FlatWarnings(outs[..p]), if k < |outs| then outs[k].error else None)
  }

  lemma ProcessedCons(outs: seq<Outcome>)
    requires outs != [] && outs[0].error.None?
    ensures var rest := Processed(outs[1..]);
      Processed(outs) == Outcome(outs[0].events + rest.events, outs[0].warnings + rest.warnings, rest.error)
  {
    var k := FirstError(outs);
    var p := if k < |outs| then k + 1 else k;
    assert outs[..p][1..] == outs[1..][..p - 1];
  }

  lemma {:induction false} SerializeItemsProcessed<T>(items: seq<T>, write: ItemWriter<T>, i: nat)
    requires i <= |items|
    ensures SerializeItems(items, write, i) == Processed(Outs(items, write)[i..])
    decreases |items| - i
  {
    var outs := Outs(items, write)[i..];
    if i == |items| {
      assert outs == [];
    } else if outs[0].error.Some? {
      assert outs[..1] == [outs[0]];
      assert FlatEvents([outs[0]]) == outs[0].events by {
        assert [outs[0]][1..] == [];
      }
      assert FlatWarnings([outs[0]]) == outs[0].warnings by {
        assert [outs[0]][1..] == [];
      }
    } else {
      SerializeItemsProcessed(items, write, i + 1);
      ProcessedCons(outs);
      assert outs[1..] == Outs(items, write)[i + 1..];
    }
  }

  /** `serialize_container` emits `start_container(name)`, then the calls of
      every item serializer up to and including the first that fails, in
      iteration order under `item_0`, `item_1`, ..., and then `end_container`
      on both paths; it returns that first error and the concatenated
      warnings of the items it processed. */
  lemma SerializeContainerSpec<T>(items: seq<T>, write: ItemWriter<T>, name: string)
    ensures var r := SerializeContainer(items, write, name);
      var p := Processed(Outs(items, write));
      && r.events == [Start(Container, name)] + p.events + [End(Container)]
      && r.warnings == p.warnings
      && r.error == p.error
  {
    SerializeItemsProcessed(items, write, 0);
    assert Outs(items, write)[0..] == Outs(items, write);
  }

  lemma {:induction false} FlatEventsBalanced(outs: seq<Outcome>)
    requires forall i :: 0 <= i < |outs| ==> Balanced(outs[i].events)
    ensures Balanced(FlatEvents(outs))
    decreases |outs|
  {
    if outs != [] {
      FlatEventsBalanced(outs[1..]);
      BalancedAppend(outs[0].events, FlatEvents(outs[1..]));
    }
  }

  lemma ProcessedBalanced(outs: seq<Outcome>)
    requires forall i :: 0 <= i < |outs| ==> Balanced(outs[i].events)
    ensures Balanced(Processed(outs).events)
  {
    var k := FirstError(outs);
    var p := if k < |outs| then k + 1 else k;
    FlatEventsBalanced(outs[..p]);
  }

  /** When every item serializer leaves the view balanced, so does
      `serialize_container`, on the error path as on the success path. */
  lemma SerializeContainerBalanced<T>(items: seq<T>, write: ItemWriter<T>, name: string)
    requires forall x, n :: Balanced(write(x, n).events)
    ensures Balanced(SerializeContainer(items, write, name).events)
  {
    SerializeContainerSpec(items, write, name);
    var outs := Outs(items, write);
    ProcessedBalanced(outs);
    BalancedWrap(Container, name, Processed(outs).events);
  }

  // ---------------------------------------------------------------------------
  // deserialize_container
  // ---------------------------------------------------------------------------

  /** The element count of an array read: the view's 32-bit signed answer
      converted to a 64-bit unsigned count, so a negative answer wraps to a
      count near 2^64. */
  function ArraySize(answer: int): (r: nat)
    requires -0x8000_0000 <= answer < 0x8000_0000
    ensures r < 0x1_0000_0000_0000_0000 && r % 0x1_0000_0000_0000_0000 == answer % 0x1_0000_0000_0000_0000
  {
    if answer < 0 then answer + 0x1_0000_0000_0000_0000 else answer
  }

  /** `PTRDIFF_MAX`: no `std::vector` has a larger `max_size()`, so
      `reserve` of a count above it throws `std::length_error`. */
  const ReserveLimit: nat := 0x7FFF_FFFF_FFFF_FFFF

  /** `tempContainer.reserve(size)` throws exactly for the counts a negative
      answer turns into. */
  lemma ReserveThrowsIffNegative(answer: int)
    requires -0x8000_0000 <= answer < 0x8000_0000
    ensures ArraySize(answer) > ReserveLimit <==> answer < 0
  { }

  /** The loop of `deserialize_container` from position `i` of `n`. */
  function DeserializeItems<T>(n: nat, read: ItemReader<T>, i: nat): (r: Read<seq<T>>)
    requires i <= n
    ensures r.value.Ok? <==> forall j :: i <= j < n ==> read(ItemName(j)).value.Ok?
    ensures r.value.Ok? ==>
      |r.value.value| == n - i &&
      forall j :: 0 <= j < n - i ==> r.value.value[j] == read(ItemName(i + j)).value.value
    decreases n - i
  {
    if i == n then Read([], [], Ok([]))
    else
      var o := read(ItemName(i));
      if o.value.Err? then Read(o.events, o.warnings, Err(o.value.msg))
      else
        var rest := DeserializeItems(n, read, i + 1);
        var value := if rest.value.Ok? then Ok([o.value.value] + rest.value.value) else rest.value;
        Read(o.events + rest.events, o.warnings + rest.warnings, value)
  }

  /** What one read yields as an outcome: its calls, its warnings and its
      error, if any. */
  function ReadOutcome<T>(o: Read<T>): (r: Outcome)
    ensures r.events == o.events && r.warnings == o.warnings
    ensures r.error.Some? <==> o.value.Err?
    ensures o.value.Err? ==> r.error == Some(o.value.msg)
  {
    Outcome(o.events, o.warnings, if o.value.Err? then Some(o.value.msg) else None)
  }

  /** The outcomes of reading `item_0`, ..., `item_(n-1)`. */
  function ReadOuts<T>(n: nat, read: ItemReader<T>): (r: seq<Outcome>)
    ensures |r| == n
    ensures forall j :: 0 <= j < n ==> r[j] == ReadOutcome(read(ItemName(j)))
  {
    seq(n, j requires 0 <= j < n => ReadOutcome(read(ItemName(j))))
  }

  /** The read loop emits the calls of every read up to and including the
      first that fails, under `item_i` in order, and accumulates their
      warnings; it fails with that read's error. */
  lemma {:induction false} DeserializeItemsProcessed<T>(n: nat, read: ItemReader<T>, i: nat)
    requires i <= n
    ensures var r := DeserializeItems(n, read, i);
      var p := Processed(ReadOuts(n, read)[i..]);
      && r.events == p.events && r.warnings == p.warnings
      && (r.value.Err? <==> p.error.Some?)
      && (r.value.Err? ==> p.error == Some(r.value.msg))
    decreases n - i
  {
    var outs := ReadOuts(n, read)[i..];
    if i == n {
      assert outs == [];
    } else if outs[0].error.Some? {
      assert outs[..1] == [outs[0]];
      assert FlatEvents([outs[0]]) == outs[0].events by {
        assert [outs[0]][1..] == [];
      }
      assert FlatWarnings([outs[0]]) == outs[0].warnings by {
        assert [outs[0]][1..] == [];
      }
    } else {
      DeserializeItemsProcessed(n, read, i + 1);
      ProcessedCons(outs);
      assert outs[1..] == ReadOuts(n, read)[i + 1..];
    }
  }

  /** `detail::deserialize_container<C>(view)` for a container filled by
      ranged `insert` in read order; `answer` is what `start_read_array`
      returns. A count above `ReserveLimit` makes `reserve` throw before any
      item is read and before `end_read_array`. */
  function DeserializeContainer<T>(answer: int, read: ItemReader<T>): (r: Read<seq<T>>)
    requires -0x8000_0000 <= answer < 0x8000_0000
    ensures |r.events| >= 1 && r.events[0] == Start(ReadArray, "")
    ensures answer < 0 ==> r.events == [Start(ReadArray, "")] && r.warnings == [] && r.value.Err?
    ensures answer >= 0 ==> |r.events| >= 2 && r.events[|r.events| - 1] == End(ReadArray)
    ensures answer >= 0 ==>
      (r.value.Ok? <==> forall j :: 0 <= j < answer ==> read(ItemName(j)).value.Ok?)
    ensures answer >= 0 && r.value.Ok? ==>
      |r.value.value| == answer &&
      forall j :: 0 <= j < answer ==> r.value.value[j] == read(ItemName(j)).value.value
    ensures answer >= 0 ==>
      var p := Processed(ReadOuts(answer, read));
      && r.events == [Start(ReadArray, "")] + p.events + [End(ReadArray)]
      && r.warnings == p.warnings
      && (r.value.Err? ==> p.error == Some(r.value.msg))
  {
    var size := ArraySize(answer);
    if size > ReserveLimit then
      Read([Start(ReadArray, "")], [], Err("length_error: vector::reserve"))
    else
      var b := DeserializeItems(size, read, 0);
      DeserializeItemsProcessed(size, read, 0);
      assert ReadOuts(size, read)[0..] == ReadOuts(size, read);
      Read([Start(ReadArray, "")] + b.events + [End(ReadArray)], b.warnings, b.value)
  }

  /** When every read leaves the view balanced, `deserialize_container`
      closes its array on both paths. */
  lemma {:induction false} DeserializeItemsBalanced<T>(n: nat, read: ItemReader<T>, i: nat)
    requires i <= n
    requires forall s :: Balanced(read(s).events)
    ensures Balanced(DeserializeItems(n, read, i).events)
    decreases n - i
  {
    if i == n {
    } else {
      var o := read(ItemName(i));
      if o.value.Ok? {
        DeserializeItemsBalanced(n, read, i + 1);
        BalancedAppend(o.events, DeserializeItems(n, read, i + 1).events);
      }
    }
  }

  /** The array is closed exactly when the answer is not negative: a
      negative answer leaves it open, because `reserve` throws past
      `end_read_array`. */
  lemma DeserializeContainerBalanced<T>(answer: int, read: ItemReader<T>)
    requires -0x8000_0000 <= answer < 0x8000_0000
    requires forall s :: Balanced(read(s).events)
    ensures Balanced(DeserializeContainer(answer, read).events) <==> answer >= 0
  {
    if answer >= 0 {
      DeserializeItemsBalanced(answer, read, 0);
      BalancedWrap(ReadArray, "", DeserializeItems(answer, read, 0).events);
    } else {
      assert DeserializeContainer(answer, read).events == [Start(ReadArray, "")];
      var es := [Start(ReadArray, "")];
      assert es[1..] == [] && [] + [ReadArray] == [ReadArray];
      assert Run(es, []) == Some([ReadArray]);
    }
  }

  // ---------------------------------------------------------------------------
  // serialize_ent_data
  // ---------------------------------------------------------------------------

  type TypeId = nat

  /** `ecs::entity_data` with the composition the registry reports for it. */
  datatype EntityData = EntityData(alive: bool, name: string, active: bool, children: seq<int>, composition: seq<TypeId>)

  /** The registries consulted while serialising an entity: the type name of
      a component type (empty when it has no type data), whether a serializer
      is registered for it, that serializer, and the serializer of a child
      entity. */
  datatype Registry = Registry(
    typeName: TypeId -> string,
    hasSerializer: TypeId -> bool,
    writeComponent: (TypeId, string) -> Outcome,
    writeChild: ItemWriter<int>)

  const MissingSerializer: string := "Could not find existing serializer for "

  /** The component loop of `serialize_ent_data` from position `i`; the caller
      closes the container and the object on every path. */
  function SerializeComponents(comp: seq<TypeId>, reg: Registry, i: nat): Outcome
    requires i <= |comp|
    decreases |comp| - i
  {
    if i == |comp| then Outcome([], [], None)
    else
      var t := comp[i];
      var compName := reg.typeName(t);
      if compName == [] then
        Outcome([], [], Some("Component type " + NatToString(t) + " has no type data."))
      else if !reg.hasSerializer(t) then
        var rest := SerializeComponents(comp, reg, i + 1);
        Outcome(rest.events, [MissingSerializer + compName] + rest.warnings, rest.error)
      else
        var o := reg.writeComponent(t, compName);
        if o.error.Some? then o
        else
          var rest := SerializeComponents(comp, reg, i + 1);
          Outcome(o.events + rest.events, o.warnings + rest.warnings, rest.error)
  }

  /** What one component of the composition yields: the "no type data"
      error for a type without a name, one warning and nothing else for a
      type without a serializer, otherwise the serializer's outcome. */
  function ComponentOutcome(t: TypeId, reg: Registry): (r: Outcome)
    ensures reg.typeName(t) == [] ==> r.events == [] && r.warnings == [] && r.error.Some?
    ensures reg.typeName(t) != [] && !reg.hasSerializer(t) ==>
      r == Outcome([], [MissingSerializer + reg.typeName(t)], None)
    ensures reg.typeName(t) != [] && reg.hasSerializer(t) ==> r == reg.writeComponent(t, reg.typeName(t))
  {
    var compName := reg.typeName(t);
    if compName == [] then Outcome([], [], Some("Component type " + NatToString(t) + " has no type data."))
    else if !reg.hasSerializer(t) then Outcome([], [MissingSerializer + compName], None)
    else reg.writeComponent(t, compName)
  }

  function ComponentOuts(comp: seq<TypeId>, reg: Registry): (r: seq<Outcome>)
    ensures |r| == |comp|
    ensures forall j :: 0 <= j < |comp| ==> r[j] == ComponentOutcome(comp[j], reg)
  {
    seq(|comp|, j requires 0 <= j < |comp| => ComponentOutcome(comp[j], reg))
  }

  /** The component loop processes the composition in order, skipping the
      types without a serializer with a warning and going on, and stops at
      the first component that fails. */
  lemma {:induction false} SerializeComponentsProcessed(comp: seq<TypeId>, reg: Registry, i: nat)
    requires i <= |comp|
    ensures SerializeComponents(comp, reg, i) == Processed(ComponentOuts(comp, reg)[i..])
    decreases |comp| - i
  {
    var outs := ComponentOuts(comp, reg)[i..];
    if i == |comp| {
      assert outs == [];
    } else if outs[0].error.Some? {
      assert outs[..1] == [outs[0]];
      assert FlatEvents([outs[0]]) == outs[0].events by {
        assert [outs[0]][1..] == [];
      }
      assert FlatWarnings([outs[0]]) == outs[0].warnings by {
        assert [outs[0]][1..] == [];
      }
    } else {
      SerializeComponentsProcessed(comp, reg, i + 1);
      ProcessedCons(outs);
      assert outs[1..] == ComponentOuts(comp, reg)[i + 1..];
    }
  }

  /** `detail::serialize_ent_data(ent_data, view, name)`. */
  function SerializeEntData(ent: EntityData, reg: Registry, name: string): (r: Outcome)
    ensures !ent.alive ==> r.events == [] && r.error.Some?
    ensures ent.alive ==> |r.events| >= 2 && r.events[0] == Start(Object, name) && r.events[|r.events| - 1] == End(Object)
  {
    if !ent.alive then Outcome([], [], Some("Entity does not exist."))
    else
      var head := [Start(Object, name), Value("name"), Value("active")];
      var c := SerializeContainer(ent.children, reg.writeChild, "children");
      if c.error.Some? then Outcome(head + c.events + [End(Object)], c.warnings, c.error)
      else
        var k := SerializeComponents(ent.composition, reg, 0);
        Outcome(head + c.events + [Start(Container, "components")] + k.events + [End(Container), End(Object)],
                c.warnings + k.warnings, k.error)
  }

  /** A live entity is written as `start_object(name)`, its name and active
      flag, the children container, and, unless a child failed, the
      components container; every return path ends the object. The warnings
      are those of the children processed, then those of the components
      processed, missing-serializer warnings included; the error is the
      first child's error, else the first component's. */
  lemma SerializeEntDataSpec(ent: EntityData, reg: Registry, name: string)
    requires ent.alive
    ensures var r := SerializeEntData(ent, reg, name);
      var c := Processed(Outs(ent.children, reg.writeChild));
      var k := Processed(ComponentOuts(ent.composition, reg));
      var head := [Start(Object, name), Value("name"), Value("active"), Start(Container, "children")]
                  + c.events + [End(Container)];
      && r.warnings == c.warnings + (if c.error.None? then k.warnings else [])
      && r.error == (if c.error.Some? then c.error else k.error)
      && r.events == head + (if c.error.None? then [Start(Container, "components")] + k.events + [End(Container)] else [])
                     + [End(Object)]
  {
    var cr := SerializeContainer(ent.children, reg.writeChild, "children");
    var kr := SerializeComponents(ent.composition, reg, 0);
    var c := Processed(Outs(ent.children, reg.writeChild));
    var k := Processed(ComponentOuts(ent.composition, reg));
    SerializeContainerSpec(ent.children, reg.writeChild, "children");
    assert cr.events == [Start(Container, "children")] + c.events + [End(Container)];
    assert cr.warnings == c.warnings && cr.error == c.error;
    SerializeComponentsProcessed(ent.composition, reg, 0);
    assert ComponentOuts(ent.composition, reg)[0..] == ComponentOuts(ent.composition, reg);
    assert kr == k;
    var head := [Start(Object, name), Value("name"), Value("active")];
    assert head + [Start(Container, "children")] + c.events + [End(Container)] == head + cr.events;
  }

  /** Component types without a serializer are skipped with a warning each,
      in composition order, and emit nothing to the view. */
  lemma {:induction false} UnserializableComponentsSkipped(comp: seq<TypeId>, reg: Registry, i: nat)
    requires i <= |comp|
    requires forall j :: i <= j < |comp| ==> reg.typeName(comp[j]) != [] && !reg.hasSerializer(comp[j])
    ensures var r := SerializeComponents(comp, reg, i);
      && r.events == [] && r.error == None
      && |r.warnings| == |comp| - i
      && forall j :: 0 <= j < |comp| - i ==> r.warnings[j] == MissingSerializer + reg.typeName(comp[i + j])
    decreases |comp| - i
  {
    if i < |comp| {
      UnserializableComponentsSkipped(comp, reg, i + 1);
      var r := SerializeComponents(comp, reg, i);
      var rest := SerializeComponents(comp, reg, i + 1);
      assert r.warnings == [MissingSerializer + reg.typeName(comp[i])] + rest.warnings;
      forall j | 0 < j < |comp| - i
        ensures r.warnings[j] == MissingSerializer + reg.typeName(comp[i + j])
      {
        assert r.warnings[j] == rest.warnings[j - 1];
      }
    }
  }

  lemma {:induction false} SerializeComponentsBalanced(comp: seq<TypeId>, reg: Registry, i: nat)
    requires i <= |comp|
    requires forall t, n :: Balanced(reg.writeComponent(t, n).events)
    ensures Balanced(SerializeComponents(comp, reg, i).events)
    decreases |comp| - i
  {
    if i < |comp| {
      var t := comp[i];
      if reg.typeName(t) != [] {
        if !reg.hasSerializer(t) {
          SerializeComponentsBalanced(comp, reg, i + 1);
        } else if reg.writeComponent(t, reg.typeName(t)).error.None? {
          SerializeComponentsBalanced(comp, reg, i + 1);
          BalancedAppend(reg.writeComponent(t, reg.typeName(t)).events, SerializeComponents(comp, reg, i + 1).events);
        }
      }
    }
  }

  /** Every return path of `serialize_ent_data` closes what it opened: the
      object always, and the components container whenever it was started,
      provided the child and component serializers are balanced themselves. */
  lemma SerializeEntDataBalanced(ent: EntityData, reg: Registry, name: string)
    requires forall x, n :: Balanced(reg.writeChild(x, n).events)
    requires forall t, n :: Balanced(reg.writeComponent(t, n).events)
    ensures Balanced(SerializeEntData(ent, reg, name).events)
  {
    if ent.alive {
      var head := [Value("name"), Value("active")];
      assert Balanced(head);
      var w := reg.writeChild;
      assert forall x, n :: Balanced(w(x, n).events);
      var c := SerializeContainer(ent.children, w, "children");
      SerializeContainerBalanced(ent.children, w, "children");
      BalancedAppend(head, c.events);
      if c.error.Some? {
        BalancedWrap(Object, name, head + c.events);
        assert [Start(Object, name)] + (head + c.events) + [End(Object)]
            == [Start(Object, name), Value("name"), Value("active")] + c.events + [End(Object)];
      } else {
        var k := SerializeComponents(ent.composition, reg, 0);
        SerializeComponentsBalanced(ent.composition, reg, 0);
        BalancedWrap(Container, "components", k.events);
        var inner := head + c.events + ([Start(Container, "components")] + k.events + [End(Container)]);
        BalancedAppend(head + c.events, [Start(Container, "components")] + k.events + [End(Container)]);
        BalancedWrap(Object, name, inner);
        assert [Start(Object, name)] + inner + [End(Object)]
            == [Start(Object, name), Value("name"), Value("active")] + c.events
               + [Start(Container, "components")] + k.events + [End(Container), End(Object)];
      }
    }
  }
}
