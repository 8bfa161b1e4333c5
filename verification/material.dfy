/** The parameter store of a material: one set of typed uniform parameters
    per shader variant, addressed by name hash or by uniform location.

    Every access first commits the lazily chosen default variant, then looks
    the current variant up with a throwing `at`; a name or type mismatch only
    warns. The hash functions are parameters of the model. The value of a
    parameter is drawn from one universe `V`; its C++ type is carried as a
    type hash next to it. */
module Material {
  import opened Base

  type Id = int

  const DefaultVariant: string := "default"
  const ColorType: string := "math::color"
  const Vec4Type: string := "math::vec4"

  /** `nameHash` and `typeHash<T>` (the latter on the name of `T`). */
  datatype Hashes = Hashes(nameHash: string -> Id, typeHash: string -> Id)

  /** `material_parameter<T>`: its name, `typeHash<T>()`, location and value. */
  datatype Param<V> = Param(name: string, typeId: Id, location: int, value: V)

  /** `variant_submaterial`. */
  datatype Submaterial<V> = Submaterial(name: string, parameters: map<Id, Param<V>>, idOfLocation: map<int, Id>)

  /** `material`, without its shader. */
  datatype Material<V> = Material(name: string, currentVariant: Id, variants: map<Id, Submaterial<V>>)

  /** A call's effect on the material together with what it returns; `Err` is
      the `std::out_of_range` thrown by `at`, raised after the default
      variant has been committed. */
  datatype Call<V, X> = Call(material: Material<V>, result: Result<X>)

  /** The `math::color` specialisations read and write the `math::vec4`
      parameter; every other type uses its own type hash. */
  function StoredType(t: string): (r: string)
    ensures r == Vec4Type <==> t == ColorType || t == Vec4Type
    ensures t != ColorType ==> r == t
  {
    if t == ColorType then Vec4Type else t
  }

  /** Selecting the default variant: an unset current variant (0) becomes the
      hash of "default"; any other current variant is kept. */
  function ChooseVariant<V>(m: Material<V>, h: Hashes): (r: Material<V>)
    ensures r.name == m.name && r.variants == m.variants
    ensures m.currentVariant != 0 ==> r == m
    ensures m.currentVariant == 0 ==> r.currentVariant == h.nameHash(DefaultVariant)
  {
    if m.currentVariant == 0 then m.(currentVariant := h.nameHash(DefaultVariant)) else m
  }

  /** Choosing the default variant twice is choosing it once. */
  lemma ChooseVariantIdempotent<V>(m: Material<V>, h: Hashes)
    ensures ChooseVariant(ChooseVariant(m, h), h) == ChooseVariant(m, h)
  {
    if m.currentVariant == 0 {
      var c := ChooseVariant(m, h);
      assert c.currentVariant == h.nameHash(DefaultVariant);
    }
  }

  /** The variant every call works on. */
  function Current<V>(m: Material<V>, h: Hashes): Id {
    ChooseVariant(m, h).currentVariant
  }

  /** The variant has a parameter with hash `id`, and its stored type hash is `typeId`. */
  predicate Matches<V>(s: Submaterial<V>, id: Id, typeId: Id) {
    id in s.parameters && s.parameters[id].typeId == typeId
  }

  /** Replaces the submaterial of the current variant. */
  function PutCurrent<V>(c: Material<V>, s: Submaterial<V>): (r: Material<V>)
    ensures r.name == c.name && r.currentVariant == c.currentVariant
    ensures r.variants.Keys == c.variants.Keys + {c.currentVariant}
    ensures r.variants[c.currentVariant] == s
    ensures forall w :: w in c.variants && w != c.currentVariant ==> r.variants[w] == c.variants[w]
  {
    c.(variants := c.variants[c.currentVariant := s])
  }

  /** `set_value` on parameter `id` of the current variant. */
  function Assign<V>(c: Material<V>, id: Id, v: V): (r: Material<V>)
    requires c.currentVariant in c.variants && id in c.variants[c.currentVariant].parameters
    ensures r.variants.Keys == c.variants.Keys
    ensures var s, t := c.variants[c.currentVariant], r.variants[c.currentVariant];
      && t.name == s.name && t.idOfLocation == s.idOfLocation
      && t.parameters.Keys == s.parameters.Keys
      && t.parameters[id] == s.parameters[id].(value := v)
      && (forall k :: k in s.parameters && k != id ==> t.parameters[k] == s.parameters[k])
  {
    var s := c.variants[c.currentVariant];
    PutCurrent(c, s.(parameters := s.parameters[id := s.parameters[id].(value := v)]))
  }

  // ---------------------------------------------------------------------------
  // By name
  // ---------------------------------------------------------------------------

  /** `set_param<T>(name, value)`; the result says whether the value was
      written (`false` is the warning path). */
  function SetParam<V>(m: Material<V>, h: Hashes, name: string, t: string, v: V): (r: Call<V, bool>)
    ensures r.material.currentVariant == Current(m, h) && r.material.variants.Keys == m.variants.Keys
    ensures r.result.Err? <==> Current(m, h) !in m.variants
    ensures r.result.Ok? ==>
      (r.result.value <==> Matches(m.variants[Current(m, h)], h.nameHash(name), h.typeHash(StoredType(t))))
    ensures r.result != Ok(true) ==> r.material == ChooseVariant(m, h)
    ensures forall w :: w in m.variants && w != Current(m, h) ==> r.material.variants[w] == m.variants[w]
  {
    var c := ChooseVariant(m, h);
    if c.currentVariant !in c.variants then Call(c, Err("unordered_map::at: key not found"))
    else
      var s := c.variants[c.currentVariant];
      var id := h.nameHash(name);
      if Matches(s, id, h.typeHash(StoredType(t))) then Call(Assign(c, id, v), Ok(true))
      else Call(c, Ok(false))
  }

  /** `has_param<T>(name)`. */
  function HasParam<V>(m: Material<V>, h: Hashes, name: string, t: string): (r: Call<V, bool>)
    ensures r.material == ChooseVariant(m, h)
    ensures r.result.Err? <==> Current(m, h) !in m.variants
  {
    var c := ChooseVariant(m, h);
    if c.currentVariant !in c.variants then Call(c, Err("unordered_map::at: key not found"))
    else Call(c, Ok(Matches(c.variants[c.currentVariant], h.nameHash(name), h.typeHash(StoredType(t)))))
  }

  /** `get_param<T>(name)`; `zero` is `T()`. */
  function GetParam<V>(m: Material<V>, h: Hashes, name: string, t: string, zero: V): (r: Call<V, V>)
    ensures r.material == ChooseVariant(m, h)
    ensures r.result.Err? <==> Current(m, h) !in m.variants
    ensures r.result.Ok? && HasParam(m, h, name, t).result == Ok(false) ==> r.result.value == zero
  {
    var c := ChooseVariant(m, h);
    if c.currentVariant !in c.variants then Call(c, Err("unordered_map::at: key not found"))
    else
      var s := c.variants[c.currentVariant];
      var id := h.nameHash(name);
      if Matches(s, id, h.typeHash(StoredType(t))) then Call(c, Ok(s.parameters[id].value))
      else Call(c, Ok(zero))
  }

  /** `get_params()`: `operator[]` inserts an empty variant when the current
      one is missing, so this call never throws. */
  function GetParams<V>(m: Material<V>, h: Hashes): (r: (Material<V>, map<Id, Param<V>>))
    ensures r.0.currentVariant == Current(m, h)
    ensures r.0.variants.Keys == m.variants.Keys + {Current(m, h)}
    ensures Current(m, h) in m.variants ==> r.0 == ChooseVariant(m, h) && r.1 == m.variants[Current(m, h)].parameters
    ensures Current(m, h) !in m.variants ==> r.1 == map[] && r.0.variants[Current(m, h)].parameters == map[]
  {
    var c := ChooseVariant(m, h);
    if c.currentVariant in c.variants then (c, c.variants[c.currentVariant].parameters)
    else (PutCurrent(c, Submaterial("", map[], map[])), map[])
  }

  // ---------------------------------------------------------------------------
  // By location
  // ---------------------------------------------------------------------------

  /** `idOfLocation[location]` through `operator[]`: an unknown location is
      inserted with id 0. */
  function LocateId<V>(s: Submaterial<V>, location: int): (r: (Submaterial<V>, Id))
    ensures r.0.name == s.name && r.0.parameters == s.parameters
    ensures r.0.idOfLocation.Keys == s.idOfLocation.Keys + {location}
    ensures forall l :: l in s.idOfLocation ==> r.0.idOfLocation[l] == s.idOfLocation[l]
    ensures r.1 == r.0.idOfLocation[location]
    ensures location !in s.idOfLocation ==> r.1 == 0
  {
    if location in s.idOfLocation then (s, s.idOfLocation[location])
    else (s.(idOfLocation := s.idOfLocation[location := 0]), 0)
  }

  /** `set_param<T>(location, value)`. */
  function SetParamAt<V>(m: Material<V>, h: Hashes, location: int, t: string, v: V): (r: Call<V, bool>)
    ensures r.material.currentVariant == Current(m, h) && r.material.variants.Keys == m.variants.Keys
    ensures r.result.Err? <==> Current(m, h) !in m.variants
  {
    var c := ChooseVariant(m, h);
    if c.currentVariant !in c.variants then Call(c, Err("unordered_map::at: key not found"))
    else
      var (s, id) := LocateId(c.variants[c.currentVariant], location);
      var c1 := PutCurrent(c, s);
      if Matches(s, id, h.typeHash(StoredType(t))) then Call(Assign(c1, id, v), Ok(true))
      else Call(c1, Ok(false))
  }

  /** `get_param<T>(location)`. */
  function GetParamAt<V>(m: Material<V>, h: Hashes, location: int, t: string, zero: V): (r: Call<V, V>)
    ensures r.material.currentVariant == Current(m, h) && r.material.variants.Keys == m.variants.Keys
    ensures r.result.Err? <==> Current(m, h) !in m.variants
  {
    var c := ChooseVariant(m, h);
    if c.currentVariant !in c.variants then Call(c, Err("unordered_map::at: key not found"))
    else
      var (s, id) := LocateId(c.variants[c.currentVariant], location);
      var c1 := PutCurrent(c, s);
      if Matches(s, id, h.typeHash(StoredType(t))) then Call(c1, Ok(s.parameters[id].value))
      else Call(c1, Ok(zero))
  }

  /** `has_param<T>(location)`: an unknown location answers `false` without
      being inserted. */
  function HasParamAt<V>(m: Material<V>, h: Hashes, location: int, t: string): (r: Call<V, bool>)
    ensures r.material == ChooseVariant(m, h)
    ensures r.result.Err? <==> Current(m, h) !in m.variants
    ensures Current(m, h) in m.variants && location !in m.variants[Current(m, h)].idOfLocation ==>
      r.result == Ok(false)
  {
    var c := ChooseVariant(m, h);
    if c.currentVariant !in c.variants then Call(c, Err("unordered_map::at: key not found"))
    else
      var s := c.variants[c.currentVariant];
      if location !in s.idOfLocation then Call(c, Ok(false))
      else Call(c, Ok(Matches(s, s.idOfLocation[location], h.typeHash(StoredType(t)))))
  }

  // ---------------------------------------------------------------------------
  // Properties
  // ---------------------------------------------------------------------------

  /** `set_param` writes exactly when `has_param` for the same name and type
      says yes, and fails exactly when it fails. */
  lemma SetWritesIffHas<V>(m: Material<V>, h: Hashes, name: string, t: string, v: V)
    ensures SetParam(m, h, name, t, v).result == HasParam(m, h, name, t).result
  {
  }

  /** A write that took place is read back by `get_param` for the same name
      and type. */
  lemma SetThenGet<V>(m: Material<V>, h: Hashes, name: string, t: string, v: V, zero: V)
    requires SetParam(m, h, name, t, v).result == Ok(true)
    ensures var m1 := SetParam(m, h, name, t, v).material;
      GetParam(m1, h, name, t, zero).result == Ok(v)
  {
    var c := ChooseVariant(m, h);
    var m1 := SetParam(m, h, name, t, v).material;
    assert m1 == Assign(c, h.nameHash(name), v);
    assert ChooseVariant(m1, h) == m1 by {
      if m.currentVariant == 0 {
        assert m1.currentVariant == h.nameHash(DefaultVariant);
      }
    }
  }

  /** `set_param` changes no parameter other than the one it names: any
      other name (or the same name with a different stored type, once the
      write failed) reads the same value afterwards. */
  lemma SetKeepsOthers<V>(m: Material<V>, h: Hashes, name: string, t: string, v: V,
                          other: string, u: string, zero: V)
    requires h.nameHash(other) != h.nameHash(name)
    ensures var m1 := SetParam(m, h, name, t, v).material;
      GetParam(m1, h, other, u, zero).result == GetParam(m, h, other, u, zero).result
  {
    ChooseVariantIdempotent(m, h);
    var c := ChooseVariant(m, h);
    var m1 := SetParam(m, h, name, t, v).material;
    assert ChooseVariant(m1, h).currentVariant == c.currentVariant by {
      if m.currentVariant == 0 {
        assert m1.currentVariant == h.nameHash(DefaultVariant);
      }
    }
  }

  /** A color written by name is what the `math::vec4` parameter of that
      name reads back, and `has_param<color>` agrees with `has_param<vec4>`. */
  lemma ColorIsVec4<V>(m: Material<V>, h: Hashes, name: string, v: V, zero: V)
    ensures HasParam(m, h, name, ColorType).result == HasParam(m, h, name, Vec4Type).result
    ensures SetParam(m, h, name, ColorType, v).result == Ok(true) ==>
      GetParam(SetParam(m, h, name, ColorType, v).material, h, name, Vec4Type, zero).result == Ok(v)
  {
    if SetParam(m, h, name, ColorType, v).result == Ok(true) {
      SetThenGet(m, h, name, ColorType, v, zero);
      assert SetParam(m, h, name, ColorType, v) == SetParam(m, h, name, Vec4Type, v);
    }
  }

  /** A location that the current variant maps to the hash of `name` behaves
      exactly like `name` for set, get and has. */
  lemma LocationIsName<V>(m: Material<V>, h: Hashes, location: int, name: string, t: string, v: V, zero: V)
    requires Current(m, h) in m.variants
    requires location in m.variants[Current(m, h)].idOfLocation
    requires m.variants[Current(m, h)].idOfLocation[location] == h.nameHash(name)
    ensures SetParamAt(m, h, location, t, v) == SetParam(m, h, name, t, v)
    ensures GetParamAt(m, h, location, t, zero) == GetParam(m, h, name, t, zero)
    ensures HasParamAt(m, h, location, t) == HasParam(m, h, name, t)
  {
    var c := ChooseVariant(m, h);
    var s := c.variants[c.currentVariant];
    assert LocateId(s, location) == (s, h.nameHash(name));
    assert PutCurrent(c, s) == c by {
      assert c.variants[c.currentVariant := s] == c.variants;
    }
  }

  /** Set and get by an unknown location record that location with id 0 and
      otherwise behave like a lookup of parameter 0; when no parameter has
      hash 0 the set writes nothing and the get yields `T()`. */
  lemma UnknownLocation<V>(m: Material<V>, h: Hashes, location: int, t: string, v: V, zero: V)
    requires Current(m, h) in m.variants
    requires location !in m.variants[Current(m, h)].idOfLocation
    requires 0 !in m.variants[Current(m, h)].parameters
    ensures var s := m.variants[Current(m, h)];
      var r := SetParamAt(m, h, location, t, v);
      && r.result == Ok(false)
      && r.material.variants[Current(m, h)] == s.(idOfLocation := s.idOfLocation[location := 0])
      && (forall w :: w in m.variants && w != Current(m, h) ==> r.material.variants[w] == m.variants[w])
    ensures var r := GetParamAt(m, h, location, t, zero);
      r.result == Ok(zero) && r.material == SetParamAt(m, h, location, t, v).material
  {
  }

  // ---------------------------------------------------------------------------
  // Handles
  // ---------------------------------------------------------------------------

  /** `material_handle`. */
  datatype Handle = Handle(id: Id)

  const InvalidId: Id := 0

  /** `invalid_material_handle`. */
  const InvalidHandle: Handle := Handle(InvalidId)

  /** `operator==` compares the ids only. */
  function HandleEquals(a: Handle, b: Handle): (r: bool)
    ensures r <==> a == b
  {
    a.id == b.id
  }

  /** `std::hash<material_handle>`: the id itself, so two handles hash alike
      exactly when they are equal. */
  function HandleHash(a: Handle): (r: int)
    ensures forall b: Handle :: b.id == r <==> HandleEquals(a, b)
  {
    a.id
  }

  /** The hash agrees with `operator==`: equal handles hash alike and
      unequal ones never collide. */
  lemma HandleHashExact(a: Handle, b: Handle)
    ensures HandleHash(a) == HandleHash(b) <==> HandleEquals(a, b)
  {
  }

  /** `MaterialCache::m_materials[id]`: `operator[]` default-constructs a
      missing material (variant 0, no variants). */
  function Cached<V>(cache: map<Id, Material<V>>, id: Id): (r: Material<V>)
    ensures id in cache ==> r == cache[id]
    ensures id !in cache ==> r.currentVariant == 0 && r.variants == map[]
  {
    if id in cache then cache[id] else Material("", 0, map[])
  }

  /** `material_handle::set_param<T>(name, value)`. */
  function HandleSetParam<V>(cache: map<Id, Material<V>>, hd: Handle, h: Hashes, name: string, t: string, v: V)
    : (r: (map<Id, Material<V>>, Result<bool>))
    ensures r.0.Keys == cache.Keys + {hd.id}
    ensures forall k :: k in cache && k != hd.id ==> r.0[k] == cache[k]
  {
    var c := SetParam(Cached(cache, hd.id), h, name, t, v);
    (cache[hd.id := c.material], c.result)
  }

  /** `material_handle::get_param<T>(name)`. */
  function HandleGetParam<V>(cache: map<Id, Material<V>>, hd: Handle, h: Hashes, name: string, t: string, zero: V)
    : (r: (map<Id, Material<V>>, Result<V>))
    ensures r.0.Keys == cache.Keys + {hd.id}
    ensures forall k :: k in cache && k != hd.id ==> r.0[k] == cache[k]
  {
    var c := GetParam(Cached(cache, hd.id), h, name, t, zero);
    (cache[hd.id := c.material], c.result)
  }

  /** `material_handle::has_param<T>(name)`. */
  function HandleHasParam<V>(cache: map<Id, Material<V>>, hd: Handle, h: Hashes, name: string, t: string)
    : (r: (map<Id, Material<V>>, Result<bool>))
    ensures r.0.Keys == cache.Keys + {hd.id}
    ensures forall k :: k in cache && k != hd.id ==> r.0[k] == cache[k]
  {
    var c := HasParam(Cached(cache, hd.id), h, name, t);
    (cache[hd.id := c.material], c.result)
  }

  /** A handle whose material does not exist gets a default-constructed one
      added to the cache, and the call then fails in `at`. */
  lemma HandleOfMissingMaterial<V>(cache: map<Id, Material<V>>, hd: Handle, h: Hashes, name: string, t: string, v: V)
    requires hd.id !in cache
    ensures var r := HandleSetParam(cache, hd, h, name, t, v);
      && r.1.Err? && hd.id in r.0 && r.0[hd.id].variants == map[]
      && r.0[hd.id].currentVariant == h.nameHash(DefaultVariant)
  {
  }

  /** Through a handle, a value written by name is read back by name. */
  lemma HandleSetThenGet<V>(cache: map<Id, Material<V>>, hd: Handle, h: Hashes, name: string, t: string, v: V, zero: V)
    requires HandleSetParam(cache, hd, h, name, t, v).1 == Ok(true)
    ensures HandleGetParam(HandleSetParam(cache, hd, h, name, t, v).0, hd, h, name, t, zero).1 == Ok(v)
  {
    var m := Cached(cache, hd.id);
    SetThenGet(m, h, name, t, v, zero);
    var c1 := HandleSetParam(cache, hd, h, name, t, v).0;
    assert Cached(c1, hd.id) == SetParam(m, h, name, t, v).material;
  }
}
