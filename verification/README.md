# Rythe engine core, modelled in Dafny

This project models seven pieces of sequential logic from the Rythe/Legion game
engine and proves properties about them:

- `StringExtra`: the string helpers of `args::core`. These are search-and-replace,
  find-and-erase, token splitting, delimiter joining, whitespace trimming and
  the NUL-terminated string counters.
- `Octree`: the rendering octree. It covers capacity-bounded insertion, the
  octant choice, the depth query and depth-ranged item collection.
- `FilterRegistry`: the ECS filter registry. For every filter it keeps the set
  of entities it accepts, updates them on component add and erase, and memoises
  filter ids.
- `HalfEdge` and `HalfEdgeMerge`: the half-edge edge primitives and the
  destructive face merge `suicidalMergeWithPairing`. The mesh is two maps from
  integer handles to edges and faces.
- `Material`: the per-variant, type-checked parameter store of a material. It
  covers access by name and by location, and the material handle.
- `Serializer`: the control flow of container and entity serialisation. The
  calls made on a serializer view are recorded as a trace of events.
- `PhysicsSystem`: one physics step. This covers pause and single-step
  control, velocity and pose integration, manifold construction and routing,
  and the order in which the solver passes visit manifolds.

`Base` holds `Option`, `Result` and a `real` 3-vector.

Things the model cannot compute become function-typed parameters ("oracles"):
- hashing (`nameHash`, `typeHash`, `combine_hash`);
- point-to-plane distance;
- the Newell plane and the coplanarity test;
- quaternion integration and the inertia tensor update;
- the physics pipeline;
- the narrow phase;
- the item serializers.

The engine runs some loops as parallel per-index jobs (`queueJobs(n, f).wait()`).
These jobs write disjoint indices, so here they are sequential maps over indices.

Mutating C++ members become pure functions that return the new state. The
composite operations (the face walk, the merge, the registry and material
lookups) return `Err` when they dereference a missing map entry (`.at`, a
dangling pointer) instead of throwing or crashing. The four link setters
`HalfEdge.SetNextAndPrev`, `SetNext`, `SetPrev` and `SetPairing` are the
exception: they dereference their edges unchecked in the source, so they
require those edges to exist.

## Model

| member | source | states |
|---|---|---|
| StringExtra.Find | args/core/common/string_extra.hpp:19-32 | `std::string::find` from an offset: the first match at or after the offset, or none when no position there matches |
| StringExtra.ReplaceItems | args/core/common/string_extra.hpp:19-32 | `replace_items` replaces the left-to-right, non-overlapping matches and resumes after each inserted value. The count it returns is zero exactly when the item never occurs. The length changes by count·(\|value\|−\|item\|). With no match the source is unchanged. The item must be non-empty |
| StringExtra.ReplaceAllLength | args/core/common/string_extra.hpp:19-32 | The reference replacement grows the text by count·(\|value\|−\|item\|) |
| StringExtra.ReplaceAllNoMatch | args/core/common/string_extra.hpp:19-32 | A text with no occurrence of the item is returned unchanged with count 0 |
| StringExtra.ReplaceAllZeroCount | args/core/common/string_extra.hpp:19-32 | A replacement that counted nothing changed nothing |
| StringExtra.ReplaceAllCountZeroIff | args/core/common/string_extra.hpp:19-32 | The count is 0 if and only if the item occurs nowhere |
| StringExtra.FindAndRemoveAt | args/core/common/string_extra.hpp:171-183 | `find_and_remove_at` returns false, with the string unchanged, exactly when the search text does not occur at or after the offset. Otherwise it erases exactly the first such occurrence |
| StringExtra.LocateAndDeleteAt | args/core/common/string_extra.hpp:186-198 | `locate_and_delete_at` returns the index of the first occurrence at or after the offset, and the result is the text before it followed by the text after it. It returns npos with the string unchanged when there is none |
| StringExtra.CStrLength | args/core/common/string_extra.hpp:269-272 | `cstrptr_length` is the index of the first NUL |
| StringExtra.CountDelimiter | args/core/common/string_extra.hpp:263-267 | `count_delimiter<D>` is the number of occurrences of D before the first NUL |
| StringExtra.IsChars | args/core/common/string_extra.hpp:34-45 | `isChars(chars)(c)` holds if and only if c occurs in the NUL-terminated set |
| StringExtra.TokenLength | args/core/common/string_extra.hpp:55-102 | The extraction operator reads a maximal run of non-separator characters |
| StringExtra.SplitStringAt | args/core/common/string_extra.hpp:55-102 | `split_string_at` yields only non-empty tokens. No token contains a delimiter or a classic whitespace character. The tokens concatenated in order give the input with those characters removed |
| StringExtra.StripAppend | args/core/common/string_extra.hpp:55-102 | Removing separators distributes over concatenation |
| StringExtra.SplitJoinRoundTrip | args/core/common/string_extra.hpp:55-102 | Splitting words joined by a separator character gives the words back, provided the words are non-empty and free of separators |
| StringExtra.JoinStringsWith | args/core/common/string_extra.hpp:119-133 | `join_strings_with(range, delim)` is "" for an empty range and the element itself for a singleton |
| StringExtra.JoinStringsWithInterleaves | args/core/common/string_extra.hpp:119-133 | For a non-empty range, the join places the delimiter exactly between consecutive elements, with none leading or trailing |
| StringExtra.InterleaveLength | args/core/common/string_extra.hpp:119-133 | The joined text has the elements' total length plus (n−1) delimiters |
| StringExtra.JoinStringsWithChar | args/core/common/string_extra.hpp:152-168 | The runtime-char join is the string join with a one-character delimiter. A NUL delimiter promotes to the empty C string |
| StringExtra.LeadingRun | args/core/common/string_extra.hpp:281-285 | `find_if` with a negated predicate stops at the first character outside the run |
| StringExtra.LTrim | args/core/common/string_extra.hpp:281-285 | `ltrim` removes exactly the maximal leading isspace run |
| StringExtra.RTrim | args/core/common/string_extra.hpp:296-300 | `rtrim` removes exactly the maximal trailing isspace run |
| StringExtra.RTrimWith | args/core/common/string_extra.hpp:301-309 | `rtrim(s, t)` removes exactly the maximal trailing run the trimmer accepts |
| StringExtra.Trim | args/core/common/string_extra.hpp:311-315 | `trim` (and `trim_copy`) gives a substring of the input with no space at either end |
| StringExtra.TrimIdempotent | args/core/common/string_extra.hpp:311-315 | Trimming twice is trimming once |
| StringExtra.LTrimWith | args/core/common/string_extra.hpp:287-293 | Corrected `ltrim(s, t)`: removes exactly the maximal leading run the trimmer accepts |
| StringExtra.LTrimWithAsWritten | args/core/common/string_extra.hpp:287-293 | `ltrim(s, t)` as written keeps a prefix of the input that the trimmer accepts throughout |
| StringExtra.TrimWithAsWrittenIsEmpty | args/core/common/string_extra.hpp:316-321 | As written, `trim(s, t)` always yields the empty string |
| StringExtra.TrimWithAsWrittenWitness | args/core/common/string_extra.hpp:316-321 | `trim(" a ", isspace)` gives "" as written, and "a" with the corrected `ltrim` |
| StringExtra.FindChar | args/core/common/string_extra.hpp:201-215 | `find(c, offset)` gives the first index of c at or after the offset, or npos |
| StringExtra.NearestOfAnyAtAsWritten | args/core/common/string_extra.hpp:201-215 | As written, `nearest_of_any_at` always returns 0 |
| StringExtra.NearestOfAnyAt | args/core/common/string_extra.hpp:201-215 | Corrected `nearest_of_any_at`: the index of the first token character at or after the offset, or npos |
| StringExtra.NearestOfAnyAtWitness | args/core/common/string_extra.hpp:201-215 | On "a,b" with token ',' the code answers 0, where 1 is intended |
| Octree.New | legion/engine/rendering/data/Octree.hpp:32-36 | The bounds-only constructor creates an empty leaf with the given capacity and bounds, split at the midpoint. It meets the invariants `insertNode` relies on: positive capacity makes it valid, and it is octant-shaped |
| Octree.NewAt | legion/engine/rendering/data/Octree.hpp:29-30 | The full constructor creates an empty leaf that stores the given capacity, bounds and split point. It is valid for a positive capacity and is octant-shaped |
| Octree.ChildIndex | legion/engine/rendering/data/Octree.hpp:214-251 | `GetChildIndex` picks a left octant if and only if x < centre.x, a top one if and only if y > centre.y, and a front one if and only if z < centre.z. Ties go right, bottom and back |
| Octree.MakeChildren | legion/engine/rendering/data/Octree.hpp:52-60 | A split creates eight empty leaves of the parent's capacity. Their bounds are the octants cut at the parent's split point |
| Octree.FitsChosenOctant | legion/engine/rendering/data/Octree.hpp:68-69 | A point inside a node is inside the octant `GetChildIndex` picks for it |
| Octree.Insert | legion/engine/rendering/data/Octree.hpp:38-69 | `insertNode` keeps every node within capacity. A point outside the inclusive bounds leaves the tree unchanged. A leaf with room appends (pos, item) last and creates no children. An inner node keeps its own items, and only child `GetChildIndex(pos)` may change |
| Octree.InsertSplitsFullLeaf | legion/engine/rendering/data/Octree.hpp:51-69 | A full leaf gets eight octant children and keeps its items, because redistribution is commented out. The new item goes to child `GetChildIndex(pos)` |
| Octree.InsertCountsOne | legion/engine/rendering/data/Octree.hpp:38-69 | In a tree whose children are their parents' octants, inserting a fitting point stores it in exactly one node |
| Octree.InsertKeepsOctants | legion/engine/rendering/data/Octree.hpp:51-69 | Insertion keeps every child equal to its parent's octant |
| Octree.GetDataSelectsLevels | legion/engine/rendering/data/Octree.hpp:105-142 | `GetData(d)` appends the items of all nodes at relative levels 0..d, in preorder: own items first, then children 0..7 |
| Octree.GetDataRangeSelectsLevels | legion/engine/rendering/data/Octree.hpp:143-177 | `GetDataRange(s, e)` appends exactly the items of nodes at relative levels l with s ≤ l < e, in preorder |
| Octree.GetTreeDepthAsWrittenValue | legion/engine/rendering/data/Octree.hpp:88-104 | As written, `GetTreeDepth(d)` returns the sum d + (d+1) + … + (d+h) for a tree of height h, not d + h |
| Octree.GetTreeDepthIsHeight | legion/engine/rendering/data/Octree.hpp:88-104 | The corrected `GetTreeDepth(d)` returns d plus the height of the tree |
| Octree.GetTreeDepthWitness | legion/engine/rendering/data/Octree.hpp:88-104 | For a tree of height 2, `GetTreeDepth(0)` answers 3 as written and 2 when corrected |
| FilterRegistry.MarkComponentAdd | legion/engine/core/ecs/filters/filterregistry.inl:6-15 | `markComponentAdd<T>(e)` inserts e into the list of each filter that contains T and accepts e's composition. All other lists are unchanged. It fails only when such a filter has no list |
| FilterRegistry.MarkComponentAddTotal | legion/engine/core/ecs/filters/filterregistry.inl:6-15 | When every filter has its list, marking an addition cannot fail |
| FilterRegistry.MarkComponentAddIdempotent | legion/engine/core/ecs/filters/filterregistry.inl:14 | Insertion is set insertion, so repeating `markComponentAdd` changes nothing |
| FilterRegistry.MarkComponentErase | legion/engine/core/ecs/filters/filterregistry.inl:17-23 | `markComponentErase<T>(e)` removes e from every list whose filter contains T, whatever the composition. Lists of other filters are unchanged |
| FilterRegistry.MarkComponentEraseAbsent | legion/engine/core/ecs/filters/filterregistry.inl:17-23 | Erasing an entity that is in no list is a no-op |
| FilterRegistry.MarkComponentEraseAfterAdd | legion/engine/core/ecs/filters/filterregistry.inl:6-23 | Erasing the same component after adding it restores the lists of an entity that was listed nowhere |
| FilterRegistry.GenerateIdInUniverse | legion/engine/core/ecs/filters/filterregistry.inl:25-35 | `generateId` folds `combine_hash` over the type list from the right. When `combine_hash` never yields a type hash, an id is a type hash exactly for one-type lists, so a one-type filter's id is never a combined id |
| FilterRegistry.GenerateIdInjective | legion/engine/core/ecs/filters/filterregistry.inl:25-35 | When `combine_hash` is injective and avoids type hashes, distinct type lists (order included) get distinct `generateId` ids, so filters never share an id |
| FilterRegistry.CollectAccepted | legion/engine/core/ecs/filters/filterregistry.inl:45-51 | The loop over the registry's compositions adds exactly the accepted entities, whatever the iteration order |
| FilterRegistry.GenerateFilterImpl | legion/engine/core/ecs/filters/filterregistry.inl:37-53 | `generateFilterImpl` appends one filter and creates its list, or keeps an existing one. The list gains exactly the existing entities the filter accepts. Other lists are unchanged |
| FilterRegistry.GenerateFilter | legion/engine/core/ecs/filters/filterregistry.inl:55-60 | `generateFilter` runs the implementation only on the first call for a type list, and afterwards answers the memoised id with the state unchanged. The first call appends the filter, records the id in the memo, keeps the compositions and other lists, and gives its list exactly the accepted entities beside any it already had |
| FilterRegistry.GenerateFilterMemoised | legion/engine/core/ecs/filters/filterregistry.inl:55-60 | Repeated calls for the same type list return the same id and register the filter only once |
| FilterRegistry.GenerateFilterKeepsCover | legion/engine/core/ecs/filters/filterregistry.inl:37-60 | Registering a filter keeps a list present for every filter |
| FilterRegistry.GenerateFilterFreshList | legion/engine/core/ecs/filters/filterregistry.inl:37-53 | The list of a freshly registered filter holds exactly the existing entities it accepts |
| HalfEdge.NewEdge | legion/engine/physics/halfedgeedge.cpp:8-14 | The constructor takes the static counter as its identifier, stores the position and advances the counter |
| HalfEdge.NewEdges | legion/engine/physics/halfedgeedge.cpp:8-14 | Edges constructed in a row get strictly increasing identifiers from the counter's range |
| HalfEdge.IdentifiersUnique | legion/engine/physics/halfedgeedge.cpp:8-14 | A later run of constructions never reuses an earlier identifier |
| HalfEdge.SetNextAndPrev | legion/engine/physics/halfedgeedge.cpp:15-19 | `setNextAndPrevEdge` sets only this edge's next and prev. Neighbours are untouched |
| HalfEdge.SetNext | legion/engine/physics/halfedgeedge.cpp:21-26 | `setNext(n)` sets this.next = n and n.prev = this. No other link changes |
| HalfEdge.SetPrev | legion/engine/physics/halfedgeedge.cpp:28-32 | `setPrev(p)` sets this.prev = p and p.next = this. No other link changes |
| HalfEdge.SetPrevIsSetNext | legion/engine/physics/halfedgeedge.cpp:21-32 | `a.setPrev(b)` and `b.setNext(a)` have the same effect |
| HalfEdge.SetPairing | legion/engine/physics/halfedgeedge.cpp:34-38 | `setPairingEdge(e)` makes the pairing symmetric and touches no other field |
| HalfEdge.SetPairingSymmetric | legion/engine/physics/halfedgeedge.cpp:34-38 | Pairing a with b is the same as pairing b with a |
| HalfEdge.IsVertexVisible | legion/engine/physics/halfedgeedge.cpp:53-59 | Visibility is the strict comparison distance > epsilon against the edge's face |
| HalfEdge.IsEdgeHorizon | legion/engine/physics/halfedgeedge.cpp:61-64 | An edge is a horizon edge if and only if the vertex is visible from its face and not from its twin's face. The answer is defined exactly when this edge's visibility is, and, when that is true, also the twin's visibility, as the short-circuit `&&` asks |
| HalfEdge.HorizonNotBothWays | legion/engine/physics/halfedgeedge.cpp:61-64 | An edge and its twin are never both horizon edges for the same vertex |
| HalfEdge.LoopRotate | legion/engine/physics/halfedgeedge.cpp:158 | A face loop read from any of its edges is still a loop |
| HalfEdge.WalkLoop | legion/engine/physics/halfedgeedge.cpp:158 | Following next from the start edge of a loop visits the loop in order |
| HalfEdge.FaceEdgesOfLoop | legion/engine/physics/halfedgeedge.cpp:158 | `forEachEdge` on a face whose start edge begins a loop visits exactly that loop |
| HalfEdge.SetFaceOf | legion/engine/physics/halfedgeedge.cpp:168 | `setEdgeFace` relabels exactly the visited edges with the face |
| HalfEdgeMerge.SpliceResult | legion/engine/physics/halfedgeedge.cpp:115-131 | The splice makes this face's loop its old loop with this edge replaced by the twin face's loop minus the twin, from twin.next to twin.prev. The start edge becomes twin.prev and the normal the given one. The twin face is deleted and its vertices released. Only links change |
| HalfEdgeMerge.AbsorbResult | legion/engine/physics/halfedgeedge.cpp:135-165 | Absorbing a doubly adjacent neighbour deletes its two shared edge pairs and puts the rest of its loop in their place. The start edge becomes the edge before the removed pair, and the normal is recomputed from the new loop's vertices. The neighbour is deleted and its vertices appended to the unmerged vertices |
| HalfEdgeMerge.DoubleAdjacentResult | legion/engine/physics/halfedgeedge.cpp:167-190 | When both flanking edges pair into one neighbour face, every edge of this face is relabelled. The neighbour is absorbed exactly when the coplanarity oracle accepts |
| HalfEdgeMerge.DoubleAdjacentNone | legion/engine/physics/halfedgeedge.cpp:170-190 | When the flanking edges pair into different faces, the check changes nothing |
| HalfEdgeMerge.MergeMainCase | legion/engine/physics/halfedgeedge.cpp:105-196 | When no face is doubly adjacent, `suicidalMergeWithPairing` joins both loops into this face. The start edge is twin.prev and the normal the given one. The twin face is deleted and its vertices released. The edge and its twin are deleted |
| Material.StoredType | legion/engine/rendering/data/material.hpp:339-427 | The `math::color` overloads work on the `math::vec4` parameter. Every other type is used as is |
| Material.ChooseVariant | legion/engine/rendering/data/material.hpp:429-434 | A current variant of 0 becomes `nameHash("default")`. Any other is kept |
| Material.ChooseVariantIdempotent | legion/engine/rendering/data/material.hpp:429-434 | Choosing the default variant twice is choosing it once |
| Material.SetParam | legion/engine/rendering/data/material.hpp:429-441 | `set_param<T>(name, v)` writes only when the current variant has a parameter with that name hash and `typeHash<T>`. Otherwise it only warns and the store is unchanged. A missing variant is an `out_of_range` error. Other variants never change |
| Material.HasParam | legion/engine/rendering/data/material.hpp:443-452 | `has_param` changes nothing except the default-variant choice |
| Material.GetParam | legion/engine/rendering/data/material.hpp:454-467 | `get_param<T>(name)` returns `T()` when the name is missing or the type differs |
| Material.GetParams | legion/engine/rendering/data/material.hpp:168-174 | `get_params` returns the current variant's parameters. It inserts an empty variant through `operator[]` when the variant is missing |
| Material.SetWritesIffHas | legion/engine/rendering/data/material.hpp:429-452 | `has_param<T>(name)` holds exactly when `set_param<T>(name, ·)` would write |
| Material.SetThenGet | legion/engine/rendering/data/material.hpp:429-467 | A successful `set_param<T>(name, v)` followed by `get_param<T>(name)` returns v |
| Material.SetKeepsOthers | legion/engine/rendering/data/material.hpp:429-467 | `set_param` leaves every parameter with another name hash as it reads |
| Material.ColorIsVec4 | legion/engine/rendering/data/material.hpp:339-427 | Colour set, get and has go through the vec4 parameter, so a colour written is read back |
| Material.LocateId | legion/engine/rendering/data/material.hpp:469-503 | `idOfLocation[location]` inserts location→0 for an unknown location and keeps every other entry |
| Material.SetParamAt | legion/engine/rendering/data/material.hpp:469-485 | `set_param<T>(location, v)` keeps the variant set. A missing variant is an error |
| Material.GetParamAt | legion/engine/rendering/data/material.hpp:487-503 | `get_param<T>(location)` keeps the variant set. A missing variant is an error |
| Material.HasParamAt | legion/engine/rendering/data/material.hpp:505-517 | `has_param<T>(location)` answers false for an unknown location and adds nothing to `idOfLocation` |
| Material.LocationIsName | legion/engine/rendering/data/material.hpp:469-517 | A known location behaves exactly like the parameter name it maps to |
| Material.UnknownLocation | legion/engine/rendering/data/material.hpp:469-503 | Set and get by an unknown location record location→0, leave all values unchanged, and get returns `T()` |
| Material.HandleEquals | legion/engine/rendering/data/material.hpp:247 | Handles are equal if and only if their ids are |
| Material.HandleHash | legion/engine/rendering/data/material.hpp:525-532 | The hash of a handle is the id that exactly the handles equal to it carry |
| Material.HandleHashExact | legion/engine/rendering/data/material.hpp:525-532 | Two handles hash alike exactly when `operator==` calls them equal |
| Material.Cached | legion/engine/rendering/data/material.hpp:291-337 | The cache's `operator[]` yields the stored material, or a default-constructed one |
| Material.HandleSetParam | legion/engine/rendering/data/material.hpp:291-299 | A handle's `set_param` touches only its own material in the cache |
| Material.HandleGetParam | legion/engine/rendering/data/material.hpp:325-330 | A handle's `get_param` touches only its own material in the cache |
| Material.HandleHasParam | legion/engine/rendering/data/material.hpp:311-316 | A handle's `has_param` touches only its own material in the cache |
| Material.HandleOfMissingMaterial | legion/engine/rendering/data/material.hpp:291-299 | A handle whose material is missing creates a default material, and the call fails because that material has no variant |
| Material.HandleSetThenGet | legion/engine/rendering/data/material.hpp:291-330 | Through a handle, a value written by name is read back by name |
| Serializer.NatToStringRoundTrip | legion/engine/core/serialization/serializer.inl:22 | `std::to_string` of an index parses back to the index |
| Serializer.ItemNamesDistinct | legion/engine/core/serialization/serializer.inl:22-56 | Items are written and read under pairwise distinct names `item_<i>` |
| Serializer.BalancedAppend | legion/engine/core/serialization/serializer.inl:9-35 | Balanced traces in sequence stay balanced |
| Serializer.BalancedWrap | legion/engine/core/serialization/serializer.inl:9-35 | A balanced trace wrapped in a matching start and end is balanced |
| Serializer.SerializeContainer | legion/engine/core/serialization/serializer.inl:9-35 | `serialize_container` opens with `start_container(name)` and always closes with `end_container` |
| Serializer.SerializeContainerSpec | legion/engine/core/serialization/serializer.inl:9-35 | Item i is written under the name `item_<i>` in order. Output stops at the first item error, which is returned. The warnings are those of every processed item, in order |
| Serializer.SerializeContainerBalanced | legion/engine/core/serialization/serializer.inl:9-35 | Given balanced item serializers, every start call is matched by an end call on every path |
| Serializer.DeserializeItems | legion/engine/core/serialization/serializer.inl:52-66 | Reading items i..n-1 succeeds exactly when every read succeeds. The values are the items in read order |
| Serializer.DeserializeItemsProcessed | legion/engine/core/serialization/serializer.inl:52-66 | The read loop emits the calls of each read up to and including the first failing one, accumulates their warnings in order, and fails with that read's error |
| Serializer.DeserializeContainer | legion/engine/core/serialization/serializer.inl:37-87 | `deserialize_container` first calls `start_read_array`. A negative answer converts to a count past `max_size`, so `reserve` throws before any read and without `end_read_array`. Otherwise the trace is `start_read_array`, the calls of the reads of `item_0`, `item_1`, ... up to and including the first that fails, then `end_read_array` on success and on error. The warnings are those of the reads performed, in order. It succeeds exactly when every one of the n reads does, and then returns the items in read order |
| Serializer.ReserveThrowsIffNegative | legion/engine/core/serialization/serializer.inl:43-46 | The converted count exceeds every vector's `max_size` exactly when the view's answer is negative |
| Serializer.DeserializeContainerBalanced | legion/engine/core/serialization/serializer.inl:37-87 | Given balanced item reads, the array read is closed exactly when the answer is not negative. A negative answer leaves it open because `reserve` throws |
| Serializer.SerializeEntData | legion/engine/core/serialization/serializer.inl:89-145 | A dead entity is an error and emits nothing. A live one is written as one object that is always closed |
| Serializer.SerializeComponentsProcessed | legion/engine/core/serialization/serializer.inl:114-140 | The component loop processes the composition in order and stops at the first failure. A type without a name stops it with the "no type data" error. A type without a serializer adds its warning, writes nothing and the loop continues. Any other type adds its serializer's calls and warnings |
| Serializer.SerializeEntDataSpec | legion/engine/core/serialization/serializer.inl:89-145 | For a live entity the trace is `start_object`, name, active, then the children container. The components container follows only if no child failed, and `end_object` comes on every path. The warnings are the processed children's warnings followed, if no child failed, by the processed components' warnings. The error is the first child's error, otherwise the first component's |
| Serializer.UnserializableComponentsSkipped | legion/engine/core/serialization/serializer.inl:124-129 | A run of component types without a serializer adds the warning "Could not find existing serializer for <name>" for each, in order, and writes nothing. Mixed compositions are covered by `SerializeComponentsProcessed` |
| Serializer.SerializeEntDataBalanced | legion/engine/core/serialization/serializer.inl:96-144 | Every return path after `start_object` emits the matching end calls, including the children and components containers |
| PhysicsSystem.IntegrateRigidbodies | legion/engine/physics/systems/physicssystem.hpp:274-293 | Entries without a rigidbody are untouched. The others get v' = v + (F·invMass + g)·dt and ω' = ω + (τ·I⁻¹)·dt, and their accumulators are zeroed |
| PhysicsSystem.IntegratePoses | legion/engine/physics/systems/physicssystem.hpp:295-333 | Only rigidbody entries move: pos' = pos + v·dt, and the rotation comes from the integration oracle. Each rigidbody changes only its centre of mass, which becomes pos', and its inverse inertia tensor, which the update oracle recomputes. Mass, velocities and accumulators are kept |
| PhysicsSystem.Runs | legion/engine/physics/systems/physicssystem.hpp:76-90 | No step runs when paused with no single step requested. Two run when not paused and a single step is requested |
| PhysicsSystem.Fetch | legion/engine/physics/systems/physicssystem.hpp:51-69 | `hasRigidBodies[i]` says whether entity i has a rigidbody, and `rigidbodies[i]` is its copy |
| PhysicsSystem.WriteBack | legion/engine/physics/systems/physicssystem.hpp:92-100 | Exactly the entities with a rigidbody get theirs written back |
| PhysicsSystem.FetchWriteBack | legion/engine/physics/systems/physicssystem.hpp:51-100 | Writing back what was fetched changes nothing |
| PhysicsSystem.FixedUpdate | legion/engine/physics/systems/physicssystem.hpp:39-106 | `fixedUpdate` keeps the set of entities with a rigidbody |
| PhysicsSystem.FixedUpdateRuns | legion/engine/physics/systems/physicssystem.hpp:76-90 | `fixedUpdate` runs the step once unless paused, and once more if a single step was requested. Afterwards the request is cleared and the pause flag unchanged. With no step, nothing changes |
| PhysicsSystem.ConstructManifoldWithCollider | legion/engine/physics/systems/physicssystem.hpp:238-270 | rigidbodyA is set if and only if `hasRigidBodies[precursorA.id]`, and likewise for B. Colliders, entities, physics components and transforms are copied from the precursors |
| PhysicsSystem.ConstructManifoldsWithPrecursors | legion/engine/physics/systems/physicssystem.hpp:195-236 | Nothing happens when either precursor lacks a physics component. Otherwise the pairs are visited with A outer and B inner, and each pair is routed |
| PhysicsSystem.RouteSpec | legion/engine/physics/systems/physicssystem.hpp:205-233 | Non-colliding pairs produce nothing. With a trigger involved, every colliding pair raises a trigger event and no manifold reaches the solver. With a rigidbody and no trigger, every colliding pair raises a collision event and its manifold is appended, in visit order. Otherwise nothing happens |
| PhysicsSystem.CollidingManifolds | legion/engine/physics/systems/physicssystem.hpp:205-270 | Every manifold routed on is colliding and carries the rigidbody pointers of its precursors |
| PhysicsSystem.SolverPass | legion/engine/physics/systems/physicssystem.hpp:335-390 | A solver pass visits the contacts of valid manifolds only. It fails with `out_of_range` when the validity list is shorter than the manifold list |
| PhysicsSystem.ValidVisitsMembers | legion/engine/physics/systems/physicssystem.hpp:335-390 | A pass visits a (manifold, contact) pair exactly when the manifold's validity byte is set and the contact is one of its contacts |
| PhysicsSystem.ValidVisitsOrdered | legion/engine/physics/systems/physicssystem.hpp:335-390 | A pass visits manifolds in index order and each manifold's contacts in order, never repeating one |
| PhysicsSystem.ValidVisitsSpec | legion/engine/physics/systems/physicssystem.hpp:335-390 | The visits are in index order, and each contact of each valid manifold is visited exactly once per pass |

## Left out

- `arr_length` (string_extra.hpp:275) is a compile-time array length and has no runtime behaviour to model.
- `data_from_string_` and `string_from_data` (string_extra.hpp:218-261) depend on locale and stream formatting.
- The char-template `join_strings_with<delim>` (string_extra.hpp:135-151) passes a `char` where `ostream_iterator` expects a C string. Its output cannot be stated.
- The `*_copy` trimming variants (string_extra.hpp:324-359) take the string by value. In a pure model they are the same functions as `LTrim`, `RTrim`, `Trim` and their trimmer forms.
- `StringExtra`: characters are Dafny `char`s, not the possibly signed `char` bytes of the source. There, `isspace` of a negative value and a `ctype` table index with a negative char are undefined behaviour, which the model does not have.
- `StringExtra.JoinStringsWith` joins strings. The source joins any `Value` that `operator<<` can print through `ostream_iterator<Value>`. Here the elements are taken as already formatted, so stream formatting is not modelled.
- `std::isspace` is the classic-locale set (space, \t, \n, \v, \f, \r). Other locales are not modelled.
- `Octree.Insert` requires a positive capacity. With capacity 0 the source splits and recurses forever.
- `Octree.Insert` works on values, but the source's children live behind a `std::shared_ptr` and its copy constructor and assignment are defaulted (Octree.hpp:25-28, 263). So a copied tree shares its subtrees with the original, and inserting into one changes both. This aliasing is not modelled. The model describes a tree that no other tree shares.
- `GenerateAverage`, `GetAverage` and `DrawTree` (Octree.hpp:71-87, 178-212) are floating-point averaging and debug drawing.
- `FilterRegistry`: `filter_info<...>::contains` is not part of this model. A filter is taken to contain its own types and to accept a composition that includes all of them.
- `FilterRegistry`: registering the component types with the registry (`registerComponentType`) is not modelled.
- `HalfEdge.NewEdge`: the static counter is an unbounded integer, so `int` wrap-around after 2^31 edges is not modelled.
- `getLocalNormal`, `calculateRobustEdgeDirection` and the `DEBUG_*` drawing methods (halfedgeedge.cpp:40-51, 66-103) are vector arithmetic and drawing.
- `HalfEdge.FaceEdges`: the body of `HalfEdgeFace::forEachEdge` (halfedgeface.cpp) is not part of this model. Its behaviour is assumed: a do-while that applies the function and follows `next` until it is back at the face's start edge. The walk is also assumed to stop after at most as many steps as the mesh has edges. `LoopRotate`, `WalkLoop`, `FaceEdgesOfLoop` and `SetFaceOf` rest on this assumption.
- `HalfEdgeMerge`: `initializeFace` (halfedgeface.cpp) is not part of this model. The merge leaves the face's remaining data as it is.
- `HalfEdgeMerge`: `ColliderFaceToVert` is reduced to the face's vertex list.
- `HalfEdgeMerge`: the Newell plane and `isNewellFacesCoplanar` are oracles.
- `HalfEdgeMerge.MergeMainCase` states the whole merge only when no face is doubly adjacent. The absorbing branch is stated per step by `AbsorbResult` and `DoubleAdjacentResult`, not composed into one theorem about the whole call.
- `Material.UnknownLocation` assumes no parameter has name hash 0. Otherwise an unknown location aliases that parameter.
- `Material`: shader binding, `init`, `bind`, `release`, the `MaterialCache` statics and its lock, and the text of the log warnings are not modelled.
- `Material.HandleSetParam`, `Material.HandleGetParam` and `Material.HandleHasParam` state only their frame. What they return is the material's answer, which `Material.HandleSetThenGet` relates.
- `Serializer`: `deserialize_ent_data` and the generic `serializer<type>` (serializer.inl:147-311) are not modelled. They rely on reflection and return addresses of locals.
- `Serializer.DeserializeContainer` models only containers filled by ranged insert (serializer.inl:74-86). The other container kinds are not modelled.
- `Serializer`: the serializer view is the trace's event alphabet, and the item and component serializers are parameters.
- `Serializer.ArraySize` models the `int` to `size_t` conversion for 32-bit answers only.
- `Serializer.DeserializeContainer` takes `PTRDIFF_MAX` as the `max_size()` of the temporary vector. A smaller `max_size()` for very large element types, and `std::bad_alloc` from `reserve` for a large non-negative count, are not modelled.
- `PhysicsSystem`: `runPhysicsPipeline` (physicssystem.hpp:179-186) is only declared in the source, so it is an oracle that keeps the arrays' shape.
- `bulkRetrievePreManifoldData` (physicssystem.hpp:131-151) and the broad phase are not modelled.
- `PhysicsSystem`: the narrow phase (`CheckCollision`, contact population) is an oracle. The contact solver's internals (effective mass, warm starting, impulses) are not modelled, so the solver passes record their visits only.
- `PhysicsSystem.IntegratePoses`: the rotation update (clamp to 32, epsilon test, quaternion product) and `UpdateInertiaTensor` are oracles.
- `PhysicsSystem`: floating point is modelled as `real`, so rounding is not modelled.
- `PhysicsSystem`: parallel jobs are sequential index maps. The job pool and its waiting are not modelled.
- `PhysicsSystem`: the disabled splitter drawing code in `fixedUpdate` is not modelled.

## Findings

| source | as written | input that shows it | evidently intended | confidence | as-written member | corrected member |
|---|---|---|---|---|---|---|
| legion/engine/rendering/data/Octree.hpp:88-104 | Children are asked with `depth + 1` and their answer is added to `depth` again, so a tree of height h answers d + (d+1) + … + (d+h) | A root whose first child has children: `GetTreeDepth(0)` gives 3 for height 2 | d + height | not executed | Octree.GetTreeDepthAsWrittenValue, Octree.GetTreeDepthWitness | Octree.GetTreeDepthIsHeight |
| args/core/common/string_extra.hpp:287-293, 316-321 | `ltrim(s, t)` erases from the first untrimmed character to the end, keeping only the leading trimmed run. `trim(s, t)` therefore always yields "" | `trim(" a ", isspace)` gives "" | remove the leading run, as `ltrim(s)` does; " a " trims to "a" | not executed | StringExtra.TrimWithAsWrittenIsEmpty, StringExtra.TrimWithAsWrittenWitness | StringExtra.LTrimWith |
| args/core/common/string_extra.hpp:201-215 | The locations vector is created with n zeros and the finds are pushed after them, so the minimum is always 0 | `nearest_of_any_at<','>("a,b")` gives 0 | 1, the index of the nearest token | not executed | StringExtra.NearestOfAnyAtAsWritten, StringExtra.NearestOfAnyAtWitness | StringExtra.NearestOfAnyAt |
