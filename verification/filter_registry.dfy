/** `legion::core::ecs::FilterRegistry`: for every registered filter (a set of
    component types), the set of entities whose composition the filter
    accepts.  Component types are represented by their type hashes, entities
    by their ids.  `filter_info<...>::contains` is not part of this model; a
    filter is taken to contain a type when the type is one of its own, and to
    accept a composition when all its types occur in it. */
module FilterRegistry {
  import opened Base

  type TypeId = int
  type Id = int
  type Entity = int

  datatype Filter = Filter(id: Id, types: set<TypeId>)

  /** `filters()`, `entityLists()`, the registry's entity compositions, and
      the function-local statics of `generateFilter<...>()`, keyed by the
      template argument list. */
  datatype State = State(
    filters: seq<Filter>,
    lists: map<Id, set<Entity>>,
    compositions: map<Entity, set<TypeId>>,
    memo: map<seq<TypeId>, Id>)

  predicate Accepts(f: Filter, composition: set<TypeId>) {
    f.types <= composition
  }

  /** Every filter has an entity list (`entityLists().at(id)` cannot throw). */
  predicate ListsCover(filters: seq<Filter>, lists: map<Id, set<Entity>>) {
    forall k :: 0 <= k < |filters| ==> filters[k].id in lists
  }

  /** Some filter with id `id` contains `t` and accepts `composition`. */
  predicate AddTargets(filters: seq<Filter>, id: Id, t: TypeId, composition: set<TypeId>) {
    exists k :: 0 <= k < |filters| && filters[k].id == id && t in filters[k].types && Accepts(filters[k], composition)
  }

  /** Some filter with id `id` contains `t`. */
  predicate EraseTargets(filters: seq<Filter>, id: Id, t: TypeId) {
    exists k :: 0 <= k < |filters| && filters[k].id == id && t in filters[k].types
  }

  // ---------------------------------------------------------------------------
  // markComponentAdd / markComponentErase
  // ---------------------------------------------------------------------------

  /** `markComponentAdd<T>(target)` with `composition` the target's current
      composition: walks the filters in order and inserts `target` into the
      list of each one that contains `T` and accepts the composition.  A
      missing list makes `.at` throw, which becomes `Err`. */
  function MarkComponentAdd(filters: seq<Filter>, lists: map<Id, set<Entity>>, t: TypeId,
                            target: Entity, composition: set<TypeId>): (r: Result<map<Id, set<Entity>>>)
    ensures r.Ok? <==>
      forall k :: 0 <= k < |filters| && t in filters[k].types && Accepts(filters[k], composition) ==> filters[k].id in lists
    ensures r.Ok? ==> r.value.Keys == lists.Keys
    ensures r.Ok? ==> forall id :: id in lists ==>
      r.value[id] == if AddTargets(filters, id, t, composition) then lists[id] + {target} else lists[id]
  {
    if filters == [] then Ok(lists)
    else
      var f := filters[0];
      if t in f.types && Accepts(f, composition) then
        if f.id !in lists then Err("entity list of filter missing")
        else
          var r := MarkComponentAdd(filters[1..], lists[f.id := lists[f.id] + {target}], t, target, composition);
          assert forall k :: 1 <= k < |filters| ==> filters[k] == filters[1..][k - 1];
          r
      else
        var r := MarkComponentAdd(filters[1..], lists, t, target, composition);
        assert forall k :: 1 <= k < |filters| ==> filters[k] == filters[1..][k - 1];
        r
  }

  /** `markComponentErase<T>(target)`: removes `target` from the list of every
      filter that contains `T`, whatever the composition. */
  function MarkComponentErase(filters: seq<Filter>, lists: map<Id, set<Entity>>, t: TypeId,
                              target: Entity): (r: Result<map<Id, set<Entity>>>)
    ensures r.Ok? <==>
      forall k :: 0 <= k < |filters| && t in filters[k].types ==> filters[k].id in lists
    ensures r.Ok? ==> r.value.Keys == lists.Keys
    ensures r.Ok? ==> forall id :: id in lists ==>
      r.value[id] == if EraseTargets(filters, id, t) then lists[id] - {target} else lists[id]
  {
    if filters == [] then Ok(lists)
    else
      var f := filters[0];
      if t in f.types then
        if f.id !in lists then Err("entity list of filter missing")
        else
          var r := MarkComponentErase(filters[1..], lists[f.id := lists[f.id] - {target}], t, target);
          assert forall k :: 1 <= k < |filters| ==> filters[k] == filters[1..][k - 1];
          r
      else
        var r := MarkComponentErase(filters[1..], lists, t, target);
        assert forall k :: 1 <= k < |filters| ==> filters[k] == filters[1..][k - 1];
        r
  }

  /** With every filter's list present, marking an addition cannot fail. */
  lemma MarkComponentAddTotal(filters: seq<Filter>, lists: map<Id, set<Entity>>, t: TypeId,
                              target: Entity, composition: set<TypeId>)
    requires ListsCover(filters, lists)
    ensures MarkComponentAdd(filters, lists, t, target, composition).Ok?
  {
  }

  /** Insertion is set insertion: marking the same addition twice is the same
      as marking it once. */
  lemma MarkComponentAddIdempotent(filters: seq<Filter>, lists: map<Id, set<Entity>>, t: TypeId,
                                   target: Entity, composition: set<TypeId>)
    requires ListsCover(filters, lists)
    ensures var once := MarkComponentAdd(filters, lists, t, target, composition).value;
      MarkComponentAdd(filters, once, t, target, composition) == Ok(once)
  {
    var once := MarkComponentAdd(filters, lists, t, target, composition).value;
    var twice := MarkComponentAdd(filters, once, t, target, composition).value;
    assert twice == once by {
      forall id | id in once ensures twice[id] == once[id] {
        if AddTargets(filters, id, t, composition) {
          assert once[id] == lists[id] + {target};
        }
      }
    }
  }

  /** Erasing an entity that is in no list leaves every list unchanged. */
  lemma MarkComponentEraseAbsent(filters: seq<Filter>, lists: map<Id, set<Entity>>, t: TypeId, target: Entity)
    requires ListsCover(filters, lists)
    requires forall id :: id in lists ==> target !in lists[id]
    ensures MarkComponentErase(filters, lists, t, target) == Ok(lists)
  {
    var r := MarkComponentErase(filters, lists, t, target).value;
    assert r == lists by {
      forall id | id in lists ensures r[id] == lists[id] {
        assert lists[id] - {target} == lists[id];
      }
    }
  }

  /** An erase undoes an add for the filters both walks reach: afterwards the
      target is in none of the lists of filters containing `T`, and the lists
      of the other filters are as the add left them. */
  lemma MarkComponentEraseAfterAdd(filters: seq<Filter>, lists: map<Id, set<Entity>>, t: TypeId,
                                   target: Entity, composition: set<TypeId>)
    requires ListsCover(filters, lists)
    requires forall id :: id in lists ==> target !in lists[id]
    ensures var added := MarkComponentAdd(filters, lists, t, target, composition).value;
      MarkComponentErase(filters, added, t, target) == Ok(lists)
  {
    var added := MarkComponentAdd(filters, lists, t, target, composition).value;
    var r := MarkComponentErase(filters, added, t, target).value;
    assert r == lists by {
      forall id | id in lists ensures r[id] == lists[id] {
        if AddTargets(filters, id, t, composition) {
          var k :| 0 <= k < |filters| && filters[k].id == id && t in filters[k].types && Accepts(filters[k], composition);
          assert EraseTargets(filters, id, t);
        }
      }
    }
  }

  // ---------------------------------------------------------------------------
  // generateId
  // ---------------------------------------------------------------------------

  /** `generateId<T0, T1, ...>()`: the hash of a single type, otherwise
      `combine_hash(make_hash<T0>(), generateId<T1, ...>())`.  The template
      needs at least one type. */
  function GenerateId(types: seq<TypeId>, combine: (Id, Id) -> Id): (id: Id)
    requires |types| >= 1
    ensures |types| == 1 ==> id == types[0]
    ensures |types| >= 2 ==> id == combine(types[0], GenerateId(types[1..], combine))
  {
    if |types| == 1 then types[0] else combine(types[0], GenerateId(types[1..], combine))
  }

  /** `combine` never yields a type hash of `universe` and is injective. */
  ghost predicate SeparatingCombine(combine: (Id, Id) -> Id, universe: set<TypeId>) {
    && (forall a, b :: combine(a, b) !in universe)
    && (forall a, b, c, d :: combine(a, b) == combine(c, d) ==> a == c && b == d)
  }

  lemma CombineOutside(combine: (Id, Id) -> Id, universe: set<TypeId>, a: Id, b: Id)
    requires SeparatingCombine(combine, universe)
    ensures combine(a, b) !in universe
  {
  }

  lemma CombineInjective(combine: (Id, Id) -> Id, universe: set<TypeId>, a: Id, b: Id, c: Id, d: Id)
    requires SeparatingCombine(combine, universe)
    requires combine(a, b) == combine(c, d)
    ensures a == c && b == d
  {
  }

  /** A combined id is never a type hash, so the id of a list is a type
      hash exactly when the list has one element. */
  lemma {:induction false} GenerateIdInUniverse(a: seq<TypeId>, combine: (Id, Id) -> Id, universe: set<TypeId>)
    requires |a| >= 1
    requires SeparatingCombine(combine, universe)
    requires forall k :: 0 <= k < |a| ==> a[k] in universe
    ensures GenerateId(a, combine) in universe <==> |a| == 1
  {
    if |a| >= 2 {
      CombineOutside(combine, universe, a[0], GenerateId(a[1..], combine));
    }
  }

  /** When `combine_hash` is injective and never collides with a type hash,
      distinct type lists get distinct ids. */
  lemma {:induction false} GenerateIdInjective(a: seq<TypeId>, b: seq<TypeId>, combine: (Id, Id) -> Id,
                                               universe: set<TypeId>)
    requires |a| >= 1 && |b| >= 1
    requires SeparatingCombine(combine, universe)
    requires forall k :: 0 <= k < |a| ==> a[k] in universe
    requires forall k :: 0 <= k < |b| ==> b[k] in universe
    requires GenerateId(a, combine) == GenerateId(b, combine)
    ensures a == b
    decreases |a|
  {
    GenerateIdInUniverse(a, combine, universe);
    GenerateIdInUniverse(b, combine, universe);
    if |a| >= 2 {
      var x, y := GenerateId(a[1..], combine), GenerateId(b[1..], combine);
      CombineInjective(combine, universe, a[0], x, b[0], y);
      GenerateIdInjective(a[1..], b[1..], combine, universe);
      assert a == [a[0]] + a[1..] && b == [b[0]] + b[1..];
    }
  }

  // ---------------------------------------------------------------------------
  // generateFilterImpl / generateFilter
  // ---------------------------------------------------------------------------

  /** The entities whose composition a filter with `types` accepts. */
  function Accepted(compositions: map<Entity, set<TypeId>>, types: set<TypeId>): set<Entity> {
    set e | e in compositions && types <= compositions[e]
  }

  /** The loop over `Registry::entityCompositions()` in `generateFilterImpl`,
      inserting every accepted entity into `list`.  The map's iteration order
      is unspecified, so it is a parameter: any listing of the entities, each
      once.  The result does not depend on it. */
  method CollectAccepted(compositions: map<Entity, set<TypeId>>, order: seq<Entity>,
                         types: set<TypeId>, list: set<Entity>)
    returns (r: set<Entity>)
    requires forall e :: e in compositions <==> e in order
    ensures r == list + Accepted(compositions, types)
  {
    r := list;
    var i := 0;
    while i < |order|
      invariant 0 <= i <= |order|
      invariant forall e :: e in r <==>
        e in list || (e in compositions && e in order[..i] && types <= compositions[e])
    {
      var e := order[i];
      if types <= compositions[e] {
        r := r + {e};
      }
      assert order[..i + 1] == order[..i] + [e];
      i := i + 1;
    }
    assert order[..i] == order;
    assert forall e :: e in r <==> e in list + Accepted(compositions, types);
  }

  /** `generateFilterImpl<...>()`: appends the filter, creates its list if
      there is none (`emplace` keeps an existing one) and fills it with the
      accepted entities.  Registering the component types with the Registry
      is not part of this model. */
  function GenerateFilterImpl(s: State, types: seq<TypeId>, combine: (Id, Id) -> Id): (r: (Id, State))
    requires |types| >= 1
    ensures r.0 == GenerateId(types, combine)
    ensures r.1.filters == s.filters + [Filter(r.0, set k | k in types)]
    ensures r.1.compositions == s.compositions && r.1.memo == s.memo
    ensures r.1.lists.Keys == s.lists.Keys + {r.0}
    ensures forall id :: id in s.lists && id != r.0 ==> r.1.lists[id] == s.lists[id]
    ensures forall e :: e in r.1.lists[r.0] <==>
      (r.0 in s.lists && e in s.lists[r.0]) || e in Accepted(s.compositions, set k | k in types)
  {
    var id := GenerateId(types, combine);
    var filter := Filter(id, set k | k in types);
    var existing := if id in s.lists then s.lists[id] else {};
    var list := existing + Accepted(s.compositions, filter.types);
    (id, s.(filters := s.filters + [filter], lists := s.lists[id := list]))
  }

  /** `generateFilter<...>()`: the function-local static runs the
      implementation only on the first call for a type list. */
  function GenerateFilter(s: State, types: seq<TypeId>, combine: (Id, Id) -> Id): (r: (Id, State))
    requires |types| >= 1
    ensures types in r.1.memo && r.1.memo[types] == r.0
    ensures types in s.memo ==> r == (s.memo[types], s)
    ensures types !in s.memo ==> r.0 == GenerateId(types, combine) && |r.1.filters| == |s.filters| + 1
    ensures types !in s.memo ==>
      && r.1.filters == s.filters + [Filter(r.0, set k | k in types)]
      && r.1.compositions == s.compositions
      && r.1.memo == s.memo[types := r.0]
      && r.1.lists.Keys == s.lists.Keys + {r.0}
      && (forall id :: id in s.lists && id != r.0 ==> r.1.lists[id] == s.lists[id])
      && (forall e :: e in r.1.lists[r.0] <==>
            (r.0 in s.lists && e in s.lists[r.0]) || e in Accepted(s.compositions, set k | k in types))
  {
    if types in s.memo then (s.memo[types], s)
    else
      var (id, s') := GenerateFilterImpl(s, types, combine);
      (id, s'.(memo := s'.memo[types := id]))
  }

  /** Repeated calls for the same type list return the same id and register
      the filter only once. */
  lemma GenerateFilterMemoised(s: State, types: seq<TypeId>, combine: (Id, Id) -> Id)
    requires |types| >= 1
    ensures var (id1, s1) := GenerateFilter(s, types, combine);
      GenerateFilter(s1, types, combine) == (id1, s1)
      && |s1.filters| <= |s.filters| + 1
  {
  }

  /** Registering a filter keeps every filter's list present. */
  lemma GenerateFilterKeepsCover(s: State, types: seq<TypeId>, combine: (Id, Id) -> Id)
    requires |types| >= 1
    requires ListsCover(s.filters, s.lists)
    ensures var s1 := GenerateFilter(s, types, combine).1;
      ListsCover(s1.filters, s1.lists)
  {
  }

  /** A freshly registered filter (with a new id) lists exactly the existing
      entities it accepts. */
  lemma GenerateFilterFreshList(s: State, types: seq<TypeId>, combine: (Id, Id) -> Id)
    requires |types| >= 1
    requires types !in s.memo && GenerateId(types, combine) !in s.lists
    ensures var (id, s1) := GenerateFilter(s, types, combine);
      s1.lists[id] == Accepted(s.compositions, set k | k in types)
  {
  }
}
